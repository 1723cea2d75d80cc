# Verified models of the RISC-V simulator and its trace tools

The Dafny modules here model five parts of the repository: the simulator's memory system, its instruction
decoder and privilege state, the binary32 kernels of its SoftFloat library, its two cache models, and the trace
record codec of `op_dumper`. Each part pairs what the C++ or C code does step by step with a plain definition of
what it is for, and proves that the two agree over every input, every run or every reachable state.
`dafny verify dfyconfig.toml` checks the whole project.

## How the project is laid out

Code that updates fields or arrays in place is a class or a method over arrays here, proved equal to a function of
the old state; the properties are lemmas about those functions and about runs of them.

**Memory system.** `PageTables` is the page-table walk of Sv32, Sv39 and Sv48 over a byte memory, including the
R and D bits it writes; `PageEntries` says what the masks, shifts and indices it computes with mean. `TlbMachine`
(in `Tlb.dfy`) is the TLB: three tag arrays that share one data array, run beside a plain machine that walks on every
access. `TlbSharing` says for which privilege settings the sharing is invisible, `MemoryLaws` that a store is read
back. `MemoryUnit` (in `Mmu.dfy`) is the class `mmu_t`. `Icache` and `IcacheRuns` are the decoded-instruction
cache, `InsnLength` the instruction lengths, `FetchUnit` the class that refills the cache.

**Decoder and privilege state.** `DecodeList` and `Decoder` are the move-to-front list behind the direct-mapped
opcode cache, over the `Patterns` instruction words are compared with. `Mstatus` is the register as 64 bits, `Hart`
the state machine of its writers and what it means for translation, `Csr` the class.

**Floating point.** `Powers`, `Binary32` and `Rounding` give encodings their real values and say what correct
rounding is, over all encodings and without reference to any algorithm; infinity stands for 2^128 when distances
are compared, as section 4.3 of IEEE 754-2008 has it. `RoundPack`, `Exceptions` and `Normalize` prove the rounding
kernel, `AddSub` and `Division` the alignments and the quotient, `FloatUnit` the methods. `MulHigh` and `RemStep`
are the integer kernels.

**Cache models.** `LruList` and `LiveModel` describe a set-associative LRU cache by the history of its accesses;
`CacheArray`, `LiveCache`, `MergeSort` and `LiveDump` are the pointer array, the live cache, the sort and the dump.
`CacheMap` is a write-back cache as a finite map with a log of what it received and sent, `TagStore` the two tag
stores that implement it, `CacheSim` one level with its counters in front of a chain of handlers, `Hierarchy` several
caches in front of one. `Rotation` and `Bitwise` hold what several parts share: moving an element forward in a
sequence, and bitwise or.

**Trace records.** `TraceRecord` is the record format and its round trips, `TraceFormat` what its codes, numbers and
bytes stand for, `Dumper` the classes `Operation` and `Dumper` over a byte file.

## Where the properties need a condition

- TLB: fetches and data accesses must both bypass translation or neither (`Uniform`). With MPRV set and PRV1 at
  another side of machine mode they can translate a page differently and share one data slot.
  `TlbSharing.UniformExactly` shows that nothing weaker will do and that nothing more is needed;
  `Hart.NotUniformReached` reaches such a setting.
- TLB: to stay sound over a run, stores keep off the live page table, as software owes until it flushes; a single
  store into it still does what walking would. A write to `sptbr` does not flush,
  so a root changes together with a flush.
- Decoder: words a run moves patterns for must decode alike through every pattern that can move. That is
  `Stable`, which `Decoder.StableExactly` shows is exactly the condition; a sorted table whose overlapping
  patterns share a match value has it. The word 1 equals the seed of every opcode cache slot and so decodes as
  illegal until another word has been decoded in its slot; `Decoder.SeedShadowsWordOne` is the exact condition after
  any run. The word is an instruction: c.nop, which c.addi matches (riscv-isa-sim/riscv/encoding.h:520-521).
- `softfloat_remStepMBy32`: the comment in primitives.h promises R*2^count - B*q for any count. With a count of 0
  and more than one word the spill shift is by 0, not by 32, and the result is wrong. `RemStep.ReductionExactly`
  gives the exact condition; the model follows the code.
- `sstatus`: a read takes SD from bit 63 of mstatus also on RV32, where SD is kept in bit 31. There it reads 0
  although a unit is dirty (`Mstatus.SstatusSdExactly`, reached in `Hart.DirtyUnseen`).
- Traps: the privilege stack holds three levels, so n traps and n returns restore the mode for n up to 2 and
  beyond that only from the mode the stack is refilled with (`Mstatus.NestingDepth`).
- Live cache: a line with tag 0 counts as invalid, so the lowest line of memory is excluded, as the source asserts
  (riscv-isa-sim/riscv/LiveCacheCore.cc:230). The line still holding
  order 0 is left out of the dump, as the code does.
- Trace records: a load is read back with the size its need-data flag promises. `TraceRecord.FramingExactly` shows
  a record is framed right exactly when it was written with that size, and `Dumper.BuildMisframed` builds one that is
  not.
- Cache simulator: at least one way, since victimize divides by their number; the constructor does not check it.
- Normalizing kernel: a zero significand packs as zero unless the exponent overflows (`Normalize.ZeroPacks`).

## Model

| member | source | states |
|---|---|---|
| PageTables.PteParts | riscv-isa-sim/riscv/encoding.h:67-98 | the R and D bits of an entry are part of neither its type nor its page number, at either entry size |
| PageTables.SuperpageContiguous | riscv-isa-sim/riscv/mmu.cc:143-145 | a leaf above the last level maps consecutive virtual pages to consecutive physical ones, if its page number is aligned to the superpage |
| PageTables.EntryFits | riscv-isa-sim/riscv/mmu.cc:127-133 | checking the first byte of an entry suffices: an entry that starts in memory lies in it |
| PageTables.WalkFromSimilar | riscv-isa-sim/riscv/mmu.cc:122-149 | two memories that differ in flag bits of entries only give the same walk, from every level, for every address, access type and privilege |
| PageTables.MarkInvisible | riscv-isa-sim/riscv/mmu.cc:141-142 | the R and D bits one walk writes change the result of no later walk, whatever its address, type or privilege |
| PageTables.WalkFromAgrees | riscv-isa-sim/riscv/mmu.cc:136-146 | walks of one page that succeed find the same leaf whatever the access type and privilege: permissions decide whether, never where |
| PageTables.WalkUntouched | riscv-isa-sim/riscv/mmu.cc:122-149 | bytes that no walk can visit influence no walk: a write clear of the live page table keeps every translation and every leaf's flags |
| PageTables.ClearAfterMark | riscv-isa-sim/riscv/mmu.cc:141-142 | the flag bits a walk writes do not change which bytes belong to the page table |
| PageEntries.PermitsExactly | riscv-isa-sim/riscv/encoding.h:67-103 | the permission masks allow an access exactly when the entry is valid and its type, by name, grants it at that privilege: R for a load, W for a store, X for a fetch, and nothing to a user on an SR type |
| PageEntries.TableExactly | riscv-isa-sim/riscv/encoding.h:67-92 | an entry leads to another table exactly when it is valid and of one of the two table types |
| PageEntries.RightsNest | riscv-isa-sim/riscv/encoding.h:92-103 | a store that is permitted is one whose load is permitted too, a supervisor may load whatever anyone may use, and no leaf is a table |
| PageEntries.FrameRead | riscv-isa-sim/riscv/mmu.cc:134-145 | an entry made of a frame number above ten other bits leads to exactly that frame, as a table and as a leaf |
| PageEntries.FlagsExactly | riscv-isa-sim/riscv/mmu.cc:141-142 | a walk sets R, sets D exactly for a store, and changes no other bit of the entry |
| PageEntries.SchemeShape | riscv-isa-sim/riscv/mmu.cc:106-116 | in each scheme a table fills a page, and the indices of all levels with the page offset make up the address width it is named after |
| PageEntries.IndexDigits | riscv-isa-sim/riscv/mmu.cc:122-128 | the entries a walk reads, wherever its tables lie, are the digits of the page number: two pages of an address space never share all of them |
| PageEntries.CanonicalExactly | riscv-isa-sim/riscv/mmu.cc:115-120 | the check of the upper address bits passes exactly the page numbers that are sign extensions of the scheme's width |
| TlbMachine.TranslateByPage | riscv-isa-sim/riscv/mmu.cc:32-48 | translation of any address is the translation of its page plus the offset, including the all-ones value of a failed walk and the xlen mask of bare mode |
| TlbMachine.HitTranslates | riscv-isa-sim/riscv/mmu.h:44-46 | in a coherent TLB a tag hit of any of the three kinds yields exactly the physical address translate would give, its whole page lies below memsz, and the walk it saves would have written nothing |
| TlbMachine.StoreHitDirty | riscv-isa-sim/riscv/mmu.h:70-71 | a store served by a store-tag hit has a leaf entry whose D and R bits are already set |
| TlbMachine.WalkKeeps | riscv-isa-sim/riscv/mmu.cc:141-142 | the bits a walk writes change no page of any access and unset no flag another walk had set |
| TlbMachine.WalkTwice | riscv-isa-sim/riscv/mmu.cc:104-150 | a repeated walk returns the same page and writes nothing more |
| TlbMachine.PagesAgree | riscv-isa-sim/riscv/mmu.cc:37-47 | fetch, load and store of one page that succeed share its physical page, whenever they agree on bypassing translation: the reason one data slot can serve three tags |
| TlbMachine.RefillCoherent | riscv-isa-sim/riscv/mmu.cc:88-102 | a refill keeps the TLB coherent although it overwrites the data slot the other two tags at that index use |
| TlbMachine.StoreCoherent | riscv-isa-sim/riscv/mmu.cc:74-86 | bytes stored clear of the page table leave a coherent TLB coherent |
| TlbMachine.Missed | riscv-isa-sim/riscv/mmu.cc:50-86 | after a miss the TLB stays coherent whether the slow path refills it or a tracer keeps it from doing so |
| TlbMachine.StepRefines | riscv-isa-sim/riscv/mmu.cc:50-102 | every load, store, fetch, flush, mode switch and root change of the machine with the TLB gives the outcome and the memory of the machine without one, stores into the page table included, and keeps it sound unless it is such a store or an unflushed switch |
| TlbMachine.NeverWild | riscv-isa-sim/riscv/mmu.h:41-50 | an aligned access that passes the memsz check never touches a byte outside memory |
| TlbMachine.RunRefines | riscv-isa-sim/riscv/mmu.cc:88-102 | over any run of accesses, flushes, switches and root changes the outcomes with the TLB are those of walking every time, and none leaves memory |
| MemoryLaws.LoadAfterStore | riscv-isa-sim/riscv/mmu.h:40-74 | a load of the address and width just stored to succeeds with the bytes stored, in every mode, scheme and width, if the store is clear of the page table: permission to store is permission to load |
| TlbSharing.SharedSlotShows | riscv-isa-sim/riscv/mmu.cc:38-39 | whenever a fetch and a load translate page 0 to different places in memory, a fetch, a load and a fetch tell the machine with the TLB from the one without |
| TlbSharing.UniformExactly | riscv-isa-sim/riscv/mmu.cc:37-45 | the shared data slot is invisible over all memories, roots and possible runs if and only if fetches and data accesses both bypass translation or neither does |
| MemoryUnit.Mmu.constructor | riscv-isa-sim/riscv/mmu.cc:8-12 | a new unit has an empty, sound TLB over the given memory |
| MemoryUnit.Mmu.FlushTlb | riscv-isa-sim/riscv/mmu.cc:24-30 | all three tag arrays are emptied and the TLB is sound whatever the page tables now hold |
| MemoryUnit.Mmu.RefillTlb | riscv-isa-sim/riscv/mmu.cc:88-102 | the in-place refill of four arrays is the refill the coherence lemmas are about |
| MemoryUnit.Mmu.Walk | riscv-isa-sim/riscv/mmu.cc:104-150 | the loop over levels returns the frame of the recursive walk, or all ones, and leaves memory as that walk marks it; what its masks, shifts and indices mean is PageEntries; its abort is unreachable |
| MemoryUnit.Mmu.Translate | riscv-isa-sim/riscv/mmu.cc:32-48 | mode selection, bare mode and the walk together give the specified translation and the specified flag writes |
| MemoryUnit.Mmu.LoadSlowPath | riscv-isa-sim/riscv/mmu.cc:60-72 | a missed load does what the machine's step does, with and without a tracer |
| MemoryUnit.Mmu.StoreSlowPath | riscv-isa-sim/riscv/mmu.cc:74-86 | a missed store does what the machine's step does, with and without a tracer |
| MemoryUnit.Mmu.FetchSlowPath | riscv-isa-sim/riscv/mmu.cc:50-58 | a missed fetch does what the machine's step does |
| MemoryUnit.Mmu.LoadBytes | riscv-isa-sim/riscv/mmu.h:40-50 | load_func of every width returns the bytes, the fault or the misalignment that walking the tables would, and keeps the TLB sound |
| MemoryUnit.Mmu.StoreBytes | riscv-isa-sim/riscv/mmu.h:65-74 | store_func of every width gives the outcome and leaves the memory that walking the tables would, also when it stores into the page table; it keeps the TLB sound when it does not |
| MemoryUnit.Mmu.TranslateInsnAddr | riscv-isa-sim/riscv/mmu.h:172-178 | the instruction TLB lookup gives the address that walking would, and keeps the TLB sound |
| Icache.OneHalf | riscv-isa-sim/riscv/mmu.h:100-101 | the 2-byte assembly is the sign-extended halfword |
| Icache.TwoHalves | riscv-isa-sim/riscv/mmu.h:95-99 | the bitwise or of a shifted signed halfword over an unsigned one is the sign extension of the two |
| Icache.ThreeHalves | riscv-isa-sim/riscv/mmu.h:102-104 | the three bitwise ors of the 6-byte case, the highest halfword first, give the sign extension of its three halfwords |
| Icache.FourHalves | riscv-isa-sim/riscv/mmu.h:105-110 | the ors of the 8-byte case give the 64-bit value of its four halfwords |
| Icache.NextHalf | riscv-isa-sim/riscv/mmu.h:96-97 | the shortcut inside a page reads the halfword a second translation would have found |
| Icache.HalfRead | riscv-isa-sim/riscv/mmu.h:172-178 | a halfword of code read through the TLB is the one walking would read, even after earlier reads of the same instruction walked and refilled |
| Icache.WalkSteady | riscv-isa-sim/riscv/mmu.cc:141-142 | flag bits written by walks disturb neither code nor any fetch translation |
| Icache.AssembleCorrect | riscv-isa-sim/riscv/mmu.h:89-110 | what refill_icache assembles is the instruction that the translated halfwords at the address spell, of all four lengths, across page boundaries and with the traps on the way; which length a first halfword announces is InsnLength |
| InsnLength.LengthByOnes | riscv-isa-sim/riscv/decode.h:52-56 | an instruction takes 2 bytes exactly when its first halfword ends in fewer than two ones, 4 for two to four, 6 for five, and 8 for more |
| InsnLength.FourByteInsn | riscv-isa-sim/riscv/mmu.h:94-99 | a first halfword ending in 11 with bits 2 to 4 not all ones is fetched with exactly the next halfword, as translated, or traps |
| InsnLength.TwoByteInsn | riscv-isa-sim/riscv/mmu.h:100-101 | a first halfword not ending in 11 is fetched by itself, whatever follows it |
| InsnLength.WordInPage | riscv-isa-sim/riscv/mmu.h:91-99 | a 32-bit instruction inside a page is the sign-extended little-endian word in memory where its address translates to |
| Icache.SlotsShared | riscv-isa-sim/riscv/mmu.h:84-87 | two instructions compete for a cache slot exactly when their addresses are a multiple of 2048 bytes apart |
| IcacheRuns.RefillRight | riscv-isa-sim/riscv/mmu.h:89-122 | a refill into any slot answers with the right instruction and, for every word, exactly the handler the decoder then has for it, and keeps every entry of the cache right |
| IcacheRuns.AccessRight | riscv-isa-sim/riscv/mmu.h:124-130 | a hit answers as a refill would |
| IcacheRuns.DataKeeps | riscv-isa-sim/riscv/mmu.h:65-74 | loads, and stores off code and page table, leave every entry right |
| IcacheRuns.DoKeeps | riscv-isa-sim/riscv/execute.cc:139-144 | each kind of step, among them the refill of the neighbouring slot, keeps the cache coherent and code translation unchanged |
| IcacheRuns.RunKeeps | riscv-isa-sim/riscv/mmu.h:89-130 | every run of fetches, neighbour refills, data accesses and flushes does |
| IcacheRuns.FetchAfterRun | riscv-isa-sim/riscv/mmu.h:124-130 | after any such run from an empty cache, a fetch at any even address answers with the instruction that memory and page tables held when the run began, and the handler a linear search finds, or for word 1 the one the decoder had for it when the entry was filled during the run |
| IcacheRuns.FetchOnceDisplaced | riscv-isa-sim/riscv/mmu.h:112-130 | if some other word had been decoded in the slot of word 1 before the run, every fetch, of word 1 too, answers with the handler a linear search finds |
| FetchUnit.Fetcher.FlushIcache | riscv-isa-sim/riscv/mmu.cc:18-22 | no entry has a tag left |
| FetchUnit.Fetcher.AssembleBits | riscv-isa-sim/riscv/mmu.h:91-110 | the imperative assembly takes the TLB through the same states, and gets the same bits or trap, as the one proved correct |
| FetchUnit.Fetcher.Decode | riscv-isa-sim/riscv/mmu.h:112-112 | decoding on behalf of a refill is one more step of the decoder's run over all words refilled so far |
| FetchUnit.Fetcher.RefillIcache | riscv-isa-sim/riscv/mmu.h:89-122 | refill_icache, tracer included, takes the whole unit to the state of the specified refill |
| FetchUnit.Fetcher.AccessIcache | riscv-isa-sim/riscv/mmu.h:124-130 | access_icache does too, touching nothing on a hit |
| DecodeList.FirstMatch | riscv-isa-sim/riscv/processor.cc:507-511 | in a rearranged list a word finds its first match of the sorted list or some entry that had been moved |
| DecodeList.MovedIsMobile | riscv-isa-sim/riscv/processor.cc:513-519 | the neighbour test on the rearranged list only ever moves entries that stand alone with their match value in the sorted list |
| DecodeList.StandsNext | riscv-isa-sim/riscv/processor.cc:514-514 | neighbours with a common match value are adjacent and in order after every run |
| DecodeList.StaysReachable | riscv-isa-sim/riscv/processor.cc:513-520 | one decode keeps the list the sorted one with some lone entries taken out and put first |
| DecodeList.SameHandler | riscv-isa-sim/riscv/processor.cc:507-511 | in every reachable list a linear search finds the handler that the sorted list gives |
| DecodeList.CompatibleIsStable | riscv-isa-sim/riscv/processor.cc:534-543 | a table sorted as build_opcode_map sorts it, whose overlapping patterns share a match value or are the catch-all, is stable under every run |
| Decoder.RunKeeps | riscv-isa-sim/riscv/processor.cc:500-527 | after any run the list is reachable and the opcode cache holds only answers of the sorted list |
| Decoder.DecodesExactly | riscv-isa-sim/riscv/processor.cc:500-547 | after any run over words the table is stable for, each of them decodes as a linear search of the sorted list, except that word 1 is illegal until another word has been decoded in its slot |
| Decoder.DecodesAsSearched | riscv-isa-sim/riscv/processor.cc:500-527 | after any run over words the table is stable for, each of them but 1 decodes as a linear search of the sorted list |
| Decoder.DecoderRefinesLinearSearch | riscv-isa-sim/riscv/processor.cc:500-547 | if overlapping patterns share a match value, any sequence of decodes gives every word the handler a linear search of the sorted table gives, and word 1 that or the seed's, as what was decoded in its slot decides |
| Decoder.StableExactly | riscv-isa-sim/riscv/processor.cc:513-519 | for words clear of the seed, stability holds if and only if no run of decodes ever shows the reordering |
| Decoder.SeedShadowsWordOne | riscv-isa-sim/riscv/processor.cc:545-546 | after any run, word 1 decodes as the sorted table says if and only if the table has it illegal or another word has been decoded in its cache slot |
| Decoder.SearchedExactly | riscv-isa-sim/riscv/processor.cc:507-526 | the handler a linear search gives is the 64-bit one of the first entry whose pattern the word agrees with on an RV64 decoder, and its 32-bit one on RV32 |
| Patterns.MaskedAgrees | riscv-isa-sim/riscv/processor.cc:508-508 | the masked comparison holds exactly when word and pattern differ in no bit of the mask and the pattern has none outside it |
| Decoder.GroupsStay | riscv-isa-sim/riscv/processor.cc:514-514 | entries with equal match values stay contiguous and in order through every move-to-front |
| Decoder.Processor.constructor | riscv-isa-sim/riscv/processor.cc:534-547 | the built decoder is the sorted table behind a cache of seeds |
| Decoder.Processor.Find | riscv-isa-sim/riscv/processor.cc:508-511 | the pointer loop stops at the first match and never runs off the list |
| Decoder.Processor.MoveToFront | riscv-isa-sim/riscv/processor.cc:516-518 | shifting in place moves exactly one entry to the front and keeps the order of the others |
| Decoder.Processor.SearchList | riscv-isa-sim/riscv/processor.cc:507-520 | on an opcode cache miss the entry returned is the first match, and it alone has moved, if and only if neither neighbour shares its match value |
| Decoder.Processor.DecodeInsn | riscv-isa-sim/riscv/processor.cc:500-527 | the method takes list and cache to the machine's next state and returns the rv64 handler of the entry found on RV64, else the rv32 one |
| Mstatus.WriteFields | riscv-isa-sim/riscv/processor.cc:298-327 | what every field of mstatus reads after a write of any 64-bit value: enables and MPRV as written, VM and the modes as written if legal and kept if not, XS only with an extension, SD recomputed |
| Mstatus.WriteLegal | riscv-isa-sim/riscv/processor.cc:302-321 | no value written makes a legal mstatus illegal |
| Mstatus.ResetLegal | riscv-isa-sim/riscv/processor.cc:109-148 | reset gives a legal mstatus in machine mode without translation, the stack below at user mode, interrupts off and no unit dirty |
| Mstatus.TouchLegal | riscv-isa-sim/riscv/decode.h:163-164 | marking a unit dirty keeps mstatus legal, SD included |
| Mstatus.FieldsTile | riscv-isa-sim/riscv/encoding.h:6-17 | the fields lie side by side in the low 22 bits of mstatus, in the order and widths of their masks |
| Mstatus.TouchFpFields | riscv-isa-sim/riscv/decode.h:163-163 | using the floating-point unit makes FS dirty and sets SD, and leaves XS and every other field |
| Mstatus.TouchExtFields | riscv-isa-sim/riscv/decode.h:164-164 | using an extension makes XS dirty and sets SD, and leaves FS and every other field |
| Mstatus.DirtyExactly | riscv-isa-sim/riscv/processor.cc:316-317 | the dirty test holds exactly when FS or XS reads 3 |
| Mstatus.FlushesExactly | riscv-isa-sim/riscv/processor.cc:299-300 | a write of mstatus flushes the TLB if and only if it asks for another VM, PRV, PRV1 or MPRV |
| Mstatus.PushStack | riscv-isa-sim/riscv/processor.cc:187-198 | a trap pushes machine mode with interrupts off on a three-level stack, dropping the oldest level, and clears MPRV |
| Mstatus.PopStack | riscv-isa-sim/riscv/processor.cc:200-210 | a return pops the stack, refilling it with user mode and interrupts on, and keeps MPRV |
| Mstatus.PopAfterPush | riscv-isa-sim/riscv/processor.cc:187-210 | a return after a trap restores PRV, IE, PRV1 and IE1 |
| Mstatus.NestingDepth | riscv-isa-sim/riscv/processor.cc:187-210 | n traps then n returns restore mode and enable if and only if n is at most 2 or they are the ones the stack is refilled with |
| Mstatus.SstatusConfined | riscv-isa-sim/riscv/processor.cc:342-351 | a write through sstatus changes neither PRV, VM nor the third level, and can set PRV1 to user or supervisor only |
| Mstatus.SstatusSdExactly | riscv-isa-sim/riscv/processor.cc:429-440 | the SD bit sstatus shows says whether a unit is dirty if and only if the machine is RV64 or no unit is dirty |
| Mstatus.SstatusShows | riscv-isa-sim/riscv/processor.cc:429-440 | a read of sstatus shows IE, IE1, the low bit of PRV1, FS, XS and MPRV where mstatus has them, and hides the other modes |
| Mstatus.SstatusWrittenBack | riscv-isa-sim/riscv/processor.cc:342-440 | writing back what sstatus reads changes no mode, enable or unit state, as long as PRV1 is user or supervisor |
| Hart.StepLegal | riscv-isa-sim/riscv/processor.cc:187-351 | every operation that changes mstatus keeps it legal |
| Hart.AcceptedModes | riscv-isa-sim/riscv/processor.cc:240-247 | the VM values a write accepts are bare mode and the schemes whose page-table entries are as wide as the registers |
| Hart.ModeNumbers | riscv-isa-sim/riscv/encoding.h:46-51 | the walk uses a scheme of n levels exactly for the VM value n + 6 |
| Hart.LevelsExactly | riscv-isa-sim/riscv/processor.cc:235-238 | of the four privilege levels a write refuses only the reserved one, and the others are told apart as user, supervisor and machine mode |
| Hart.UnflushedStep | riscv-isa-sim/riscv/processor.cc:299-300 | an operation that does not flush the TLB leaves VM, PRV, PRV1 and MPRV as they were: every change of them empties it |
| Hart.StepFlushes | riscv-isa-sim/riscv/processor.cc:299-300 | and it flushes if and only if the value it writes has another VM, PRV, PRV1 or MPRV; using a unit never does |
| Hart.SwitchAllowed | riscv-isa-sim/riscv/processor.cc:299-300 | so every operation, seen from the memory system, is a switch the TLB proof allows |
| Hart.ReachableLegal | riscv-isa-sim/riscv/processor.cc:187-327 | in every state reached from reset by any operations, PRV, PRV1 and PRV2 are U, S or M, VM is a mode the walk accepts, and SD holds exactly when FS or XS is dirty |
| Hart.NotUniformReached | riscv-isa-sim/riscv/processor.cc:298-314 | one write of mstatus after reset reaches a state in which fetches bypass translation and loads do not, on RV32 and RV64 |
| Hart.DirtyUnseen | riscv-isa-sim/riscv/processor.cc:437-438 | on RV32 the first use of the floating-point unit after reset sets SD in mstatus and sstatus does not show it |
| Hart.EpochSteady | riscv-isa-sim/riscv/processor.cc:298-300 | along a run without a flush, translation reads the same registers from beginning to end |
| Hart.ProgramRefines | riscv-isa-sim/riscv/processor.cc:298-300 | a program that mixes memory accesses with CSR writes, traps and returns sees through the TLB exactly what walking every time would show it |
| Csr.Processor.constructor | riscv-isa-sim/riscv/processor.cc:137-148 | a released processor is in the state after reset, its root and floating-point registers zero, over a sound TLB without a single tag |
| Csr.Processor.SetMstatus | riscv-isa-sim/riscv/processor.cc:298-327 | the in-place update of mstatus, with its flush, is the step of the state machine, and a sound TLB stays sound |
| Csr.Processor.SetCsr | riscv-isa-sim/riscv/processor.cc:249-365 | a write of fflags, frm, fcsr, mstatus or sstatus changes that register and mstatus as the state machine says, touches no other, and keeps a sound TLB sound; fflags, frm and fcsr make FS dirty and leave XS, the modes and the enables; a write of sptbr sets the aligned root without a flush, so only an empty TLB stays sound |
| Csr.Processor.SetSptbr | riscv-isa-sim/riscv/processor.cc:364-364 | the root becomes the value written less its page offset, within xlen bits, and an empty TLB stays sound |
| Csr.Processor.PushPrivilegeStack | riscv-isa-sim/riscv/processor.cc:187-198 | the method pushes one level on the abstract stack and keeps the TLB sound |
| Csr.Processor.PopPrivilegeStack | riscv-isa-sim/riscv/processor.cc:200-210 | the method pops one level off the abstract stack and keeps the TLB sound |
| Csr.StepSound | riscv-isa-sim/riscv/processor.cc:298-300 | an operation's new registers and its flush together keep a sound TLB sound |
| Binary32.PackMag | riscv-isa-sim/softfloat/internals.h:88-88 | adding a significand to an exponent field encodes its value also when the significand carries into the exponent |
| Binary32.MagStep | riscv-isa-sim/softfloat/internals.h:85-88 | the next encoding has the next bigger value, across binades, from the subnormals up to infinity |
| Binary32.ValueInjective | riscv-isa-sim/softfloat/internals.h:85-90 | only the two zeros share a value |
| Rounding.RoundsBetween | riscv-isa-sim/softfloat/softfloat.h:70-77 | picking a neighbour by mode, side of the midpoint and parity is correct rounding among all encodings, in all five modes |
| Rounding.RoundsOverflow | riscv-isa-sim/softfloat/s_roundPackToF32.c:77-82 | beyond the largest binade the correct rounding is infinity or the largest finite number, as the mode says |
| Rounding.RoundsExact | riscv-isa-sim/softfloat/s_roundPackToF32.c:84-87 | a representable number rounds to itself in every mode |
| Rounding.RoundsUnique | riscv-isa-sim/softfloat/softfloat.h:70-77 | a number has one correct rounding, up to the sign of zero: the definition leaves the kernels no choice |
| Rounding.RoundsExists | riscv-isa-sim/softfloat/softfloat.h:70-77 | every real number has a correct rounding in every mode |
| RoundPack.JamShifts | riscv-isa-sim/softfloat/primitives.h:65-80 | the jammed shift by any count is the exact quotient, or an odd number within one of it, so it keeps order against every even number |
| RoundPack.ShiftStands | riscv-isa-sim/softfloat/s_roundPackToF32.c:71-73 | the second jamming shift, into the subnormals, keeps every rounding decision the significand stands for |
| RoundPack.RoundSig | riscv-isa-sim/softfloat/s_roundPackToF32.c:84-87 | increment, shift and clearing the tie bit give the correct rounding of the number the significand stands for, and the low seven bits tell whether it was exact |
| Exceptions.IsTiny | riscv-isa-sim/softfloat/s_roundPackToF32.c:66-70 | the kernel's test is tininess as IEEE 754-2008 section 7.5 defines it, before or after rounding to unbounded exponent range |
| Exceptions.NormalPack | riscv-isa-sim/softfloat/s_roundPackToF32.c:84-87 | in the normal range the packed result is the correct rounding with exactly the inexact flag it deserves |
| Exceptions.SubnormalPack | riscv-isa-sim/softfloat/s_roundPackToF32.c:65-76 | below it the packed result is the correct rounding, with underflow exactly when tiny and inexact |
| Exceptions.RoundPackedCorrect | riscv-isa-sim/softfloat/s_roundPackToF32.c:44-92 | for every exponent and every normalized significand standing for any real number, the kernel delivers its correct rounding and exactly the flags of sections 7.4 to 7.6 |
| Normalize.LeadingZeros | riscv-isa-sim/softfloat/s_countLeadingZeros32.c:45-61 | shifting by the count found by table and halving brings the leading one to bit 31 |
| Normalize.NormRoundPackedCorrect | riscv-isa-sim/softfloat/s_normRoundPackToF32.c:43-57 | normalizing before rounding delivers the correct rounding, also on the shortcut that packs without rounding |
| Normalize.ZeroPacks | riscv-isa-sim/softfloat/s_normRoundPackToF32.c:48-54 | a zero significand packs as a zero of the given sign without flags if and only if the exponent, less 31, does not overflow |
| AddSub.AlignedMag | riscv-isa-sim/softfloat/s_subMagsF32.c:62-102 | the aligned significand, a subnormal's doubled, times its scale is the operand's value |
| AddSub.ShiftedMag | riscv-isa-sim/softfloat/s_addMagsF32.c:83-93 | the smaller operand's value at the bigger one's scale is its aligned significand over the power of the exponent difference |
| AddSub.JamSmall | riscv-isa-sim/softfloat/primitives.h:75-80 | a jammed small operand is exactly half the aligned one or hardly more than a quarter of it, so cancellation never reaches a jammed bit |
| AddSub.SubUnequal | riscv-isa-sim/softfloat/s_subMagsF32.c:86-107 | with unequal exponents the jammed difference delivers the correctly rounded exact difference |
| AddSub.SubEqual | riscv-isa-sim/softfloat/s_subMagsF32.c:72-107 | with equal exponents the difference is exact however deep the cancellation |
| AddSub.AddUnequal | riscv-isa-sim/softfloat/s_addMagsF32.c:75-101 | with unequal exponents the jammed sum delivers the correctly rounded exact sum, whether or not it carries |
| AddSub.AddNormals | riscv-isa-sim/softfloat/s_addMagsF32.c:73-101 | so does the sum of normal operands with equal exponents |
| AddSub.AddSubnormals | riscv-isa-sim/softfloat/s_addMagsF32.c:69-72 | subnormals add exactly by adding their encodings, a carry giving the right normal number |
| Division.NormalizedMag | riscv-isa-sim/softfloat/s_normSubnormalF32Sig.c:41-51 | normalizing a subnormal operand changes its representation, not its value |
| Division.QuotientStands | riscv-isa-sim/softfloat/f32_div.c:120-127 | the integer quotient lies in [2^30, 2^31), and with the sticky bit set only over six zero bits it stands for the exact quotient in every rounding decision |
| Division.QuotientScale | riscv-isa-sim/softfloat/f32_div.c:116-127 | that quotient times its scale times the divisor is the dividend |
| Division.DivCorrect | riscv-isa-sim/softfloat/f32_div.c:98-154 | for all finite nonzero operands the kernel delivers the correctly rounded exact quotient, subnormal results included |
| FloatUnit.FloatState.RoundPackToF32 | riscv-isa-sim/softfloat/s_roundPackToF32.c:44-92 | the statements of the kernel, over any 16-bit exponent, compute the result and accumulate the flags that RoundPackedCorrect is about |
| FloatUnit.FloatState.NormRoundPackToF32 | riscv-isa-sim/softfloat/s_normRoundPackToF32.c:43-57 | the same for the normalizing kernel, over every significand below 2^31, zero included, and every exponent whose normalized value fits 16 bits |
| FloatUnit.FloatState.PropagateNaN | riscv-isa-sim/softfloat/s_propagateNaNF32UI.c:48-57 | the default NaN results, with invalid raised exactly for a signalling operand |
| FloatUnit.SignalsExactly | riscv-isa-sim/softfloat/specialize.h:81-88 | a signalling NaN is a NaN whose fraction leads with a zero, and the default NaN is none |
| FloatUnit.SpecialSumIs | riscv-isa-sim/softfloat/s_subMagsF32.c:66-98 | a sum or difference with a NaN or an infinity raises invalid exactly for a signalling NaN and for infinities that cancel, and nothing else; it is a NaN exactly then or with a NaN operand, else the infinity of the infinite operand's sign |
| FloatUnit.SpecialQuotientIs | riscv-isa-sim/softfloat/f32_div.c:84-106 | a quotient without a finite value raises invalid exactly for a signalling NaN, infinity by infinity and zero by zero, and division by zero exactly for another finite number by zero; otherwise it is a zero or an infinity of the operands' signs |
| FloatUnit.FloatState.AddMags | riscv-isa-sim/softfloat/s_addMagsF32.c:44-108 | for all encodings: finite operands deliver the correctly rounded exact sum of magnitudes with exactly its flags, NaNs and infinities their special results |
| FloatUnit.FloatState.SubMags | riscv-isa-sim/softfloat/s_subMagsF32.c:45-114 | for all encodings: finite operands deliver the correctly rounded exact difference of magnitudes, an exact zero negative only when rounding down, as section 6.3 of IEEE 754-2008 asks |
| FloatUnit.FloatState.F32Add | riscv-isa-sim/softfloat/f32_add.c:43-73 | the sum of any two finite values, of any signs, correctly rounded with its flags and zero sign |
| FloatUnit.FloatState.F32Sub | riscv-isa-sim/softfloat/f32_sub.c:43-73 | the difference of any two finite values, likewise |
| FloatUnit.FloatState.F32Div | riscv-isa-sim/softfloat/f32_div.c:44-179 | the quotient of any two finite values with nonzero divisor, likewise; division by zero and the other special cases with their flags |
| MulHigh.Carries | riscv-isa-sim/riscv/mulhi.h:15-24 | no partial sum of the four products leaves 64 bits, and the last is the high half of the product |
| MulHigh.MulHU | riscv-isa-sim/riscv/mulhi.h:8-27 | the high 64 bits of the 128-bit unsigned product, for all operands |
| MulHigh.NegatedHigh | riscv-isa-sim/riscv/mulhi.h:31-33 | the complement, plus one only when the low half is zero, is the high half of the negated product |
| MulHigh.MulH | riscv-isa-sim/riscv/mulhi.h:29-34 | the high half of the signed product, the smallest number included |
| MulHigh.MulHSU | riscv-isa-sim/riscv/mulhi.h:36-41 | the high half of a signed by unsigned product |
| RemStep.StepBalance | riscv-isa-sim/softfloat/s_remStepMBy32.c:69-81 | each trip of the loop stores one word of the result and owes the rest to multiply carry, shift spill and borrow |
| RemStep.RunBalance | riscv-isa-sim/softfloat/s_remStepMBy32.c:62-81 | after i words the words stored and what is owed balance to R*2^count - B*q on the words read |
| RemStep.RunIsReduction | riscv-isa-sim/softfloat/s_remStepMBy32.c:59-82 | for counts 1 to 31 the words stored are (R*2^count - B*q) mod 2^(32*size) for every size, operands and q |
| RemStep.ZeroCountFails | riscv-isa-sim/softfloat/s_remStepMBy32.c:70-70 | with a count of 0, for every size of two words or more, some operands give another result |
| RemStep.ReductionExactly | riscv-isa-sim/softfloat/primitives.h:1092-1109 | for every size and count up to 31 the promise holds for all operands if and only if the count is positive or there is one word |
| RemStep.RemStepMBy32 | riscv-isa-sim/softfloat/s_remStepMBy32.c:44-84 | the loop over arrays, aliased in any way, stores that result and nothing beyond it |
| LruList.LruIsRecent | riscv-isa-sim/riscv/LiveCacheCore.cc:270-286 | a bounded list updated one use at a time holds exactly the most recently used distinct tags of the whole history |
| LruList.RecentByLastUse | riscv-isa-sim/riscv/LiveCacheCore.cc:298-306 | that list is in order of falling time of last use |
| LruList.RecentHolds | riscv-isa-sim/riscv/LiveCacheCore.cc:298-306 | without a bound it holds exactly the tags ever used |
| LruList.VictimIsLru | riscv-isa-sim/riscv/LiveCacheCore.cc:239-286 | in a packed set the line found from the end is the one with the tag, else an invalid line if there is one, else the least recently used |
| LruList.FillRefines | riscv-isa-sim/riscv/LiveCacheCore.cc:225-309 | filling keeps valid tags distinct and in front, and refines one use of the abstract list |
| LruList.FindRefines | riscv-isa-sim/riscv/LiveCacheCore.cc:176-223 | a lookup that hits refines one use; one that misses changes nothing |
| Rotation.RotatedSlice | riscv-isa-sim/riscv/LiveCacheCore.cc:211-220 | a rotation inside a set's slice is a move to its front and only permutes the slice's lines |
| LiveModel.StoredMeans | riscv-isa-sim/riscv/LiveCache.cc:71-92 | for a resident line the flag computed access by access says exactly that some write to it was followed by uninterrupted residence |
| LiveModel.AccessHolds | riscv-isa-sim/riscv/LiveCache.cc:71-92 | an access keeps its set the most recently used lines in order, each with its time of last access and its store flag |
| LiveModel.OtherSet | riscv-isa-sim/riscv/LiveCacheCore.h:225-236 | an access to one set leaves what every other set says true |
| CacheArray.CacheAssoc.constructor | riscv-isa-sim/riscv/LiveCacheCore.cc:143-174 | all lines are distinct objects with invalid tags, whatever the allocator left in the other fields |
| CacheArray.CacheAssoc.MoveToFront | riscv-isa-sim/riscv/LiveCacheCore.cc:211-220 | the pointer loop rotates one stretch of the array in place and touches nothing else |
| CacheArray.CacheAssoc.FindLine | riscv-isa-sim/riscv/LiveCacheCore.cc:176-223 | the lookup returns the line with the tag, moved to the front of its set, or null and changes nothing |
| CacheArray.CacheAssoc.FindLine2Replace | riscv-isa-sim/riscv/LiveCacheCore.cc:225-309 | the line with the tag, or under LRU the last of the set, is moved to the front and returned |
| CacheArray.CacheAssoc.FillLine | riscv-isa-sim/riscv/LiveCacheCore.h:183-189 | the line returned has the new tag and, besides it, what the replaced line held |
| LiveCache.LiveCache.constructor | riscv-isa-sim/riscv/LiveCache.cc:56-65 | a new cache has the empty history |
| LiveCache.LiveCache.Read | riscv-isa-sim/riscv/LiveCache.cc:71-84 | after a read every set of the array is again what the history, one read longer, says it is |
| LiveCache.LiveCache.Write | riscv-isa-sim/riscv/LiveCache.cc:86-92 | after a write every set is what the history, one write longer, says it is |
| MergeSort.MergeKeeps | riscv-isa-sim/riscv/LiveCache.cc:145-156 | merging neither loses nor repeats a line |
| MergeSort.MergeSorts | riscv-isa-sim/riscv/LiveCache.cc:145-156 | merging sorted halves gives a sorted whole |
| MergeSort.SortedPermutation | riscv-isa-sim/riscv/LiveCache.cc:118-157 | for every length, the special cases included, the sort gives a sorted permutation |
| MergeSort.MergeInto | riscv-isa-sim/riscv/LiveCache.cc:145-156 | the merging loop overwrites the array with the merge of the two copies |
| MergeSort.SortLines | riscv-isa-sim/riscv/LiveCache.cc:118-157 | the recursive method sorts the array in place as the function does |
| LiveDump.TagsApart | riscv-isa-sim/riscv/LiveCacheCore.h:225-236 | no two valid lines anywhere in the array share a tag |
| LiveDump.ResidentHeld | riscv-isa-sim/riscv/LiveCache.cc:98-103 | every line the history makes resident is found by the scan of the array, with its time of last access |
| LiveDump.DumpCorrect | riscv-isa-sim/riscv/LiveCache.cc:94-116 | any sorted permutation of the collected lines, less the invalid ones, lists each resident line other than the one with order 0 exactly once, by strictly rising last access, flagged exactly when written since filled |
| LiveDump.DumpUnique | riscv-isa-sim/riscv/LiveCache.cc:94-116 | the history leaves no choice about the dump |
| LiveDump.TraverseAndPrint | riscv-isa-sim/riscv/LiveCache.cc:94-116 | after any reads and writes the method emits that dump, with line base addresses |
| CacheMap.StepKeepsStores | riscv-isa-sim/riscv/cachesim.cc:130-173 | an access, hit or miss with or without a write-back, loses no store |
| CacheMap.RunKeepsStores | riscv-isa-sim/riscv/cachesim.cc:130-173 | after any run a line ever stored to is dirty or its base was written back after its last store |
| CacheMap.FedCounts | riscv-isa-sim/riscv/cachesim.cc:160-169 | a handler fed by one cache has received as many reads and as many writes as that cache sent, and as many bytes each way, at whatever line sizes |
| CacheMap.StaysInterleaved | riscv-isa-sim/riscv/cachesim.cc:160-169 | what a level behind several caches receives stays an interleaving of what each of them asks for, in order and at its own line size |
| CacheMap.SharedCounts | riscv-isa-sim/riscv/cachesim.cc:145-165 | a level fed by several has received as many reads and as many writes, and as many bytes each way, as all of them sent together |
| TagStore.CodedMeans | riscv-isa-sim/riscv/cachesim.h:38-39 | with lines of 8 bytes or more, line number, VALID and DIRTY never run into each other in a tag word |
| TagStore.CodedInjective | riscv-isa-sim/riscv/cachesim.h:38-39 | so tag words are equal only for the same line and dirty bit |
| TagStore.SlotsOf | riscv-isa-sim/riscv/cachesim.cc:111-116 | comparing a tag word less its dirty bit finds a line exactly at its slot |
| TagStore.Replaced | riscv-isa-sim/riscv/cachesim.cc:121-128 | overwriting any way of its set replaces at most one line, which the old tag word names with its dirty bit |
| TagStore.FindsKey | riscv-isa-sim/riscv/cachesim.cc:180-184 | a lookup in the ordered entries finds exactly the lines of the map |
| TagStore.SetCapacity | riscv-isa-sim/riscv/cachesim.cc:109-128 | no set ever holds more lines than it has ways |
| TagStore.MapCapacity | riscv-isa-sim/riscv/cachesim.cc:186-198 | the ordered entries hold each line once, so their number is the number of lines |
| TagStore.Taps | riscv-isa-sim/riscv/cachesim.h:19-19 | bit by bit the random register is the shift register with taps at bits 31, 30, 28 and 0 |
| TagStore.RegRuns | riscv-isa-sim/riscv/cachesim.h:17-19 | it never reaches zero and never runs two values together |
| TagStore.PicksInTurn | riscv-isa-sim/riscv/cachesim.cc:124-124 | register values pick the ways in turn |
| TagStore.Tags.CheckTag | riscv-isa-sim/riscv/cachesim.cc:109-184 | in both stores the place returned is that of the line, or null exactly when it is absent |
| TagStore.Tags.MarkDirty | riscv-isa-sim/riscv/cachesim.cc:148-154 | or-ing the bit through the pointer makes that line dirty and no other |
| TagStore.Tags.Victimize | riscv-isa-sim/riscv/cachesim.cc:121-198 | both stores enter the missing line clean, take out at most one line, and return its word; which way or entry that is follows from the random register, which moves one step, but for a fully associative store with room |
| CacheSim.ShiftOf | riscv-isa-sim/riscv/cachesim.cc:53-55 | the counting loop finds the logarithm of the line size |
| CacheSim.CacheSim.constructor | riscv-isa-sim/riscv/cachesim.cc:45-67 | a good configuration gives an empty cache with nothing counted, fully associative if it has one set of more than four ways |
| CacheSim.CacheSim.SetMissHandler | riscv-isa-sim/riscv/cachesim.h:33-33 | an unused cache gets a handler of its own, or one that other caches share |
| CacheSim.CacheSim.Evict | riscv-isa-sim/riscv/cachesim.cc:158-166 | the victim is written back to its exact line base if and only if it was dirty, and counted |
| CacheSim.CacheSim.WriteVictim | riscv-isa-sim/riscv/cachesim.cc:160-166 | a victim's tag word is written back to its exact line base if and only if it is valid and dirty |
| CacheSim.CacheSim.Fetch | riscv-isa-sim/riscv/cachesim.cc:168-172 | the missing line's base is read from the handler, and the final check_tag is never null |
| CacheSim.CacheSim.Access | riscv-isa-sim/riscv/cachesim.cc:130-173 | through a chain of handlers of any length, shared or not, one access is one step of the map, the handler receives exactly the requests of that step, a whole line each, every level's counters and stores stay accounted for, and bytes and miss are counted |
| CacheSim.CacheSim.HandlerCounts | riscv-isa-sim/riscv/cachesim.cc:160-169 | in every reachable state the write accesses of a handler that is not shared are the write-backs, its read accesses the read and write misses, and its bytes each way one line for each of them |
| Hierarchy.Attach | riscv-isa-sim/spike_main/spike.cc:75-76 | any number of unused caches can be put in front of one |
| Hierarchy.Hierarchy.constructor | riscv-isa-sim/spike_main/spike.cc:75-76 | once attached they form a hierarchy in which nothing has been received |
| Hierarchy.Hierarchy.Access | riscv-isa-sim/riscv/cachesim.cc:130-173 | an access to one of the caches in front is one step of it, leaves the others as they were, and keeps what the shared cache has received an interleaving of their requests |
| Hierarchy.Hierarchy.NoStoreLost | riscv-isa-sim/riscv/cachesim.cc:130-173 | neither the caches in front nor the shared one ever lose a store |
| Hierarchy.Hierarchy.SumsUp | riscv-isa-sim/riscv/cachesim.cc:145-169 | in every reachable state the shared cache's write accesses are the sum of the write-backs in front of it and its read accesses the sum of their misses, and its bytes written and read are those sums with each weighted by the line size of the cache that sent it |
| TraceRecord.NumOfCode | op_dumper/operation_opcodes.cpp:25-132 | the three tables invert each other on loads and on stores, although loads and stores share codes |
| TraceRecord.WidthByCode | op_dumper/operation_opcodes.hpp:26-70 | the width of every load and store is two to the power held in bits 1 to 3 of its code, and zero for the store that only unlocks |
| TraceFormat.CodesExactly | op_dumper/operation_opcodes.hpp:26-70 | a load code is five bits with a width of up to 64 bytes and a sign bit for the widths below a word; a store code is even, with bit 7 for unlocking, or 0xFF; locking and unlocking codes have the upper number intervals |
| TraceFormat.NumbersExactly | op_dumper/operation_opcodes.cpp:78-132 | every number of a load or a store is some code's, and no other number is |
| TraceFormat.LoadsInOrder | op_dumper/operation_opcodes.cpp:78-101 | loads are numbered in the order of their codes |
| TraceFormat.StoresInOrder | op_dumper/operation_opcodes.cpp:114-132 | so are stores, 0xFF being first of those that unlock |
| TraceRecord.LeRoundTrip | op_dumper/operation_binary.cpp:101-104 | the low bytes of a number, lowest first, give it back modulo their range |
| TraceRecord.LeAt | op_dumper/operation_binary.cpp:101-104 | byte i of a number is the number shifted right by i bytes, masked |
| TraceFormat.HeaderLayout | op_dumper/operation_binary.cpp:34-121 | byte 0 of a record is the number, bytes 1 to 3 hold twelve bits each of process and delay, bytes 4 to 11 the PC and bytes 12 to 19 the address, one more exactly for a load that needs its data |
| TraceFormat.LineLayout | op_dumper/operation_binary.cpp:282-296 | a live-cache record is a zero byte and the address |
| TraceFormat.PayloadLayout | op_dumper/operation_binary.cpp:123-139 | the payload is the low bytes of the value, lowest first: as many as the code says, none for 0xFF and for a load without data |
| TraceRecord.HeaderRestores | op_dumper/operation_binary.cpp:156-269 | reading a header into any operation restores opcode, number, type, 12-bit PID and delay, PC, aligned address and need-data flag, leaves the value, and lets a store keep a flag it finds set |
| TraceRecord.FramingExactly | op_dumper/operation_binary.cpp:134-139 | the payload size the header announces is the one written if and only if a load's size is the one its flag promises |
| TraceRecord.RecordRoundTrip | op_dumper/dumper.cpp:49-108 | one record in front of any bytes reads back as itself and uses up exactly its own bytes |
| TraceRecord.StreamRoundTrip | op_dumper/dumper.cpp:24-108 | any list of writable operations, written and read until the bytes run out, comes back, live-cache records by address |
| Dumper.Operation.constructor | op_dumper/operation.cpp:22-36 | a new operation is a load by type with the live cache's number |
| Dumper.Operation.SetLoadOpCode | op_dumper/operation_set.cpp:31-42 | a known code sets number, type and an empty size; an unknown one fails with the code already set |
| Dumper.Operation.SetStoreOpCode | op_dumper/operation_set.cpp:54-99 | a known code sets number, type and width, which is two to the power in bits 1 to 3 of the code or zero for 0xFF; an unknown one fails with the code already set |
| Dumper.Operation.SetLoadNeedData | op_dumper/operation_set.cpp:277-325 | the flag is set, and a load's size becomes its width, two to the power in bits 1 to 3 of its code |
| Dumper.Operation.SetLoadNoData | op_dumper/operation_set.cpp:337-347 | a load's flag and size are cleared; other operations are left alone |
| Dumper.BuildMisframed | op_dumper/operation_set.cpp:31-325 | three setter calls build a load whose record is read back with another size: the flag survives a new code, the size does not |
| Dumper.Operation.GetBinary | op_dumper/operation_binary.cpp:25-144 | the loops of shifts and masks append exactly the encoding |
| Dumper.Operation.SetFromBinary | op_dumper/operation_binary.cpp:156-269 | the setters leave the decoded header in the operation and return the payload size, a store's old flag staying set |
| Dumper.WordsOf | op_dumper/dumper.cpp:87-104 | the accumulating loop groups payload bytes into words, a last partial word included |
| Dumper.Dumper.Add | op_dumper/dumper.cpp:24-37 | one encoded record is appended to the file |
| Dumper.Dumper.Get | op_dumper/dumper.cpp:49-108 | the record at the position is decoded, also when the file ends inside it, and the position moves past it |
| Dumper.Dumper.HasNext | op_dumper/dumper.cpp:120-142 | taking a byte and seeking back moves nothing, and answers yes if and only if reading on would give a record or meet a byte no record begins with; the end-of-file state is left set exactly when it answers no |
| Dumper.ReadBack | op_dumper/main.cpp:103-122 | the reading loop returns the operations of the whole rest of the file, or stops at an unknown number |

## Left out

- MemoryUnit.Mmu.LoadBytes: requires `Uniform`, the exact condition of `TlbSharing.UniformExactly`; without it the code's answer depends on earlier accesses.
- MemoryUnit.Mmu.LoadSlowPath: an address outside memory is reported as outside with its physical address; memory-mapped devices behind it, and the trap taken when there is none, are not modelled.
- MemoryUnit.Mmu.StoreSlowPath: the same for stores.
- MemoryUnit.Mmu.FlushTlb: clears the TLB tags only; the instruction cache half of the source's function is FetchUnit.Fetcher.FlushIcache, and flushing both is one act of a run in IcacheRuns.
- FetchUnit.Fetcher.RefillIcache: asks for even addresses, as the fetch loop's PC alignment gives them; tracers are a flag per call.
- IcacheRuns.FetchAfterRun: the set of code bytes is fixed over the run, and stores keep off it, as a program owes until it executes a fence; changes of privilege or translation start a new run, since they flush the cache.
- Csr.Processor.SetCsr: covers the registers that translation, the privilege state and the floating-point state read; counters, timers, interrupt registers and host communication are left out, as is a reset while running.
- FloatUnit.FloatState.PropagateNaN: this configuration of the library always returns the default NaN, so no payload is propagated.
- RemStep.RemStepMBy32: a count above 31 is an undefined shift in C and is excluded.
- LiveCache.LiveCache.Read: excludes addresses in the lowest line, whose tag 0 the cache takes for an invalid line and the source asserts never to see.
- LiveCache.LiveCache.Write: excludes them too.
- CacheArray.CacheAssoc.FindLine2Replace: only the LRU policy, with which the live cache is created, and plain indexing without the exclusive-or hash.
- CacheSim.CacheSim.SetMissHandler: handlers are attached before the first access and never form a cycle; counters do not wrap at 64 bits.
- CacheSim.CacheSim.Access: the compile-time trace branch, which feeds the live cache, and the printing of statistics are left out; the set index is taken modulo the number of sets, which for the powers of two the constructor insists on is the source's mask.
- Dumper.Operation.GetBinary: requires a payload of at most 8 bytes; from the ninth byte on the source shifts a 64-bit word by 64 or more, which C++ leaves undefined. Reading covers all sizes.
- Dumper.Dumper.HasNext: open modes and file errors other than the end of the file are left out.
- Decoder.Processor.constructor: takes the table in the order std::sort gives it; registering extensions later, which sorts again, is a new decoder.
- Square root, comparisons, conversions and the binary64 variants of the floating-point operations: the variants repeat the binary32 arguments at another width, and square root needs the error analysis of a reciprocal table.
- The other quotient algorithm of f32_div, used on hosts without fast 64-by-32 division.
- The direct-mapped, skewed and signature-based caches beside CacheAssoc, which the live cache does not use.
- Several harts: one processor, one memory unit.
- Host-target interface, interactive debugger, disassembler, option parsing, device tree, extension loading and trace-file writing: input, output or foreign code.
