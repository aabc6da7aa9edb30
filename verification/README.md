# MachGate: verified models of its rewriting, linking, unwinding and caching cores

MachGate loads foreign Mach-O programs on Linux. While loading it rewrites machine code,
applies relocations, turns compact unwind tables into DWARF and caches the result. This
project models those parts in Dafny and proves what they are for.

All integers are mathematical; every machine width is written out (`U8`, `U32`, `U64`, `Wrap`,
`% TWO32`), and `|` of disjoint fields is written `+`. Instruction meanings follow sections C6.2
and C7.2 of the Arm Architecture Reference Manual (DDI 0487); LEB128 and call frame
instructions follow sections 7.6 and 6.4 of DWARF 4; the `.eh_frame` layout follows the
"Exception Frames" section of the LSB Core specification.

## The parts

- **Machine code.** `Bits`, `Options`, `Memory`, `A64` (encoders and a decoder), `Machine` (a step function
  over X registers, SP, NZCV, memory and an exclusive monitor).
- **LSE emulation** (`src/isa_emul.c`). `Lse` decodes and gives the architectural result, `Island`
  is the emitted code, `IslandEmit` its emission, `IslandBody` what its computation does,
  `IslandThread` the invariant of one thread in an island, `Concurrent` any number of threads
  interleaved with stores and failing store-exclusives, `ConcurrentResults` what follows. `Bcax` is
  the SHA3 island, `IsaPatch` the pass over the text, `PatchedSite` and `PatchedBcax` a core
  that fetches the patched text and the pool at an LSE or BCAX site, `TextReplay` the LDAPR/TPIDRRO rewrite of `src/machgate.c` and its cached replay.
- **System calls** (`src/syscall/syscall_gate.c`). `SyscallIsland` is the island of an `svc #0x80`,
  `GatePools` the pool allocator and the patching, `PatchedSvc` a core that fetches the gate's memory
  at a patched svc.
- **Relocation** (`src/resolver.c`). `Leb`, `Rebase`, `Bind`, `Chain`, and the two hash structures
  `SymbolIndex` and `BindSlots` over a common `HashChain`.
- **Unwinding** (`src/eh_frame.c`). `Cfi` (emitted instructions and their meaning), `EhEmit`, `EhParse`,
  `EhRoundTrip`, `EhResults`, `EhLimits` (where a section falls short), `Compact` (an encoding given by
  its fields, up to a caller's registers on a stack), `EhPointers` (pointers and copies in the section),
  `NativeFrames` (any native section), `Unwind`, `UnwindInfo` (the raw `__unwind_info` section).
- **Startup cache** (`src/startup_cache.c`). `Fnv`, `StartupCache`, `CachePublish`.
- **Patch files** (`src/patcher.c`): `Patcher`. **SGR archives** (`tools/sgr_*.c`): `Sgr`.

## Where the code meets a promise only under a condition

For each of these one lemma gives a concrete input that fails (named first) and another says exactly
when the promise holds.

- Byte and halfword LDUMAX, LDUMIN and CAS compare the whole W register, so bits of Rs above the
  operand take part (`Lse.StrayBitsBreakUnsignedMax`, in a run of the island
  `ConcurrentResults.StrayBitsReachMemory`; `Lse.EmulatedIsArchitectural`).
- BCAX with Vd, Vn and Va the same register leaves 0 (`Bcax.ClobberBreaksBcax`; `Bcax.BcaxExact`,
  at a patched site `PatchedBcax.BcaxSiteExecutes`).
- `isa_emul_patch` checks the range of the branch into an island, not of the branch back
  (`IsaPatch.ReturnCanMiss`, `IsaPatch.IslandDecodes`).
- The cached text replay equals the scan if and only if the recording did not overflow
  (`TextReplay.OverflowLosesRewrite`, `TextReplay.ReplayEqualsScan`).
- The symbol index returns the last of several symbols with one name, the linear scan the first
  (`SymbolIndex.DuplicatesDiffer`, `SymbolIndex.SameExactly`); the index never finds an empty name or
  one that only stands at string offset 0 (`SymbolIndex.ZeroOffsetMissed`, `SymbolIndex.FoundAlike`).
- An empty file in an SGR archive is extracted as its own four-byte trailer; header strings are cut
  at 255 bytes and extraction ends at a name that is empty or longer than 2000 bytes
  (`Sgr.EmptyFileReturnsTrailer`, `Sgr.RestoredIffNonEmpty`, `Sgr.RecoveredIff`,
  `Sgr.UnpackedRepacked`).
- The cache compares its size with the sizes in the header modulo 2^64, so an accepted file can
  describe parts that reach beyond it (`StartupCache.WrappingFileAccepted`,
  `StartupCache.InsideExactly`).
- The unwind section can outgrow its mapping when many entries copy one native FDE
  (`EhLimits.CrowdOverflows`, `EhResults.SectionSize`; enough room is `EhResults.SectionFits`).
- An entry with the LSDA bit and no LSDA offset gets the CIE that announces an LSDA pointer and an
  FDE without one; without a personality no CIE announces any (`EhLimits.StrayLsda`,
  `EhLimits.CarriedExactly`).

## Conditions carried by the theorems

- LSE islands: Rn is not SP, and the operand does not meet the 64 bytes below SP, which the island
  uses as its stack; the guest keeps nothing live there. The syscall island uses the 192 bytes below
  SP, the BCAX island 16.
- `PatchedSite`, `PatchedBcax` and `PatchedSvc` fetch from the patched text and the islands, which
  data stores leave alone; an instruction pool does not start right after the site.
- Memory is sequentially consistent; acquire and release are recorded as data only. CAS decodes as
  acquire always, because its mask fixes bit 23; that is stronger than required.
- A mapping request at a fixed address either fails or yields a range that overlaps no earlier one.
- zlib is a pair of functions of which the second undoes the first.
- The comment at the buffer allocation in `src/eh_frame.c:1449-1450` speaks of 80 bytes per entry; the
  code reserves 128, and 128 is what `EhResults.SectionFits` is about. A write beyond the mapping is
  reported and happens all the same.

## Model

| member | source | states |
|---|---|---|
| A64.DecodeEncode | src/isa_emul.c:20-134 | Every instruction whose fields fit is decoded back from its encoded word, with branch offsets reduced to their field. |
| A64.BranchReaches | src/arm64_enc.h:10-25 | An encoded B or BL decodes to its own offset if and only if the displacement passes arm64_branch_in_range. |
| Machine.CompareMeans | src/isa_emul.c:107-117 | CMP followed by a conditional means the unsigned or signed order of the operands at the register width. |
| Machine.FlagsSurvive | src/isa_emul.c:38-50 | NZCV read with MRS and written back with MSR is unchanged. |
| Lse.DecodeEncodeLse | src/isa_emul.c:175-220 | Every LSE operation, size and register choice is recovered from its architectural encoding. |
| Lse.OnlyLse | src/isa_emul.c:175-220 | Every word decode_lse takes is the encoding of the operation it returns, except that it ignores bits 14 to 12 of a swap and the acquire bit of CAS. |
| Lse.EmulatedIsArchitectural | src/isa_emul.c:243-345 | The value the island computes is the architectural one if and only if Rs is zero-extended, the operation does not compare whole registers, or the stray bits cannot matter. |
| Lse.StrayBitsBreakUnsignedMax | src/isa_emul.c:326-334 | LDUMAXB and CASB with a bit above the operand in Rs give another result than the architecture. |
| Island.PlanOk | src/isa_emul.c:145-156 | For every operand choice the scratch registers are distinct, avoid all operands and are real registers. |
| Island.CodeAt | src/isa_emul.c:224-356 | The emitted word at each position is the instruction of its phase, for every operation. |
| Island.IslandFits | src/isa_emul.c:224-356 | Every LSE island has between 15 and 20 words, below the 24 reserved for it. |
| Island.Control | src/isa_emul.c:243-255 | Every branch of the island lands where the structure of the loop says, including the CAS exit three words ahead. |
| IslandEmit.EmitIsland | src/isa_emul.c:224-356 | Emitting instruction by instruction, with displacements from the position reached, yields the island the theorems are about, for every operation and register choice. |
| IslandBody.BodyComputes | src/isa_emul.c:295-345 | From any registers the computation between the exclusives leaves the new value in the store register, and for CAS the comparison in Z, changing scratch registers and NZCV only. |
| IslandThread.StepKeeps | src/isa_emul.c:224-356 | Each instruction of the island keeps the invariant of its phase: saved registers on the stack, guest registers intact, the loaded value matching memory while the monitor is held. |
| IslandThread.KeepReturn | src/isa_emul.c:347-356 | At the return branch registers, SP and NZCV are the guest's, with the old value in the destination. |
| IslandThread.StepWrites | src/isa_emul.c:224-356 | Apart from saving registers, an island step writes memory only by a granted store-exclusive, and then the new value to the operand. |
| Concurrent.NextKeeps | src/isa_emul.c:243-255 | Every action of the concurrent machine, by any thread, keeps the system invariant. |
| Concurrent.Linearizable | tests/test_lse_emul.c:590-636 | After every run memory is the replay of a log in which each LSE instruction happens at one instant and reads what memory holds there; every completed island is in it exactly once, in its thread's order, and handed back the architectural registers, SP and NZCV. |
| ConcurrentResults.SoloFinishes | src/isa_emul.c:243-255 | From every reachable state a thread that runs without failing store-exclusives returns within 28 steps. |
| ConcurrentResults.AloneIsAtomic | src/isa_emul.c:224-356 | An island running alone, after any store-exclusive failures, leaves the result in the operand, the old value in the destination, everything else as it was, and no byte outside operand and stack window changed. |
| ConcurrentResults.AloneFinishes | src/isa_emul.c:224-356 | A run of the island alone that ends exists, and leaves the result in the operand. |
| ConcurrentResults.AtomicIsArchitectural | src/isa_emul.c:243-345 | Each LSE instruction of a log leaves the architectural value for what it read and changes no other byte, when Rs is zero-extended where that matters. |
| ConcurrentResults.AloneIsArchitectural | src/isa_emul.c:224-356 | The sequential case end to end: memory ends with the architectural value. |
| ConcurrentResults.StrayBitsReachMemory | src/isa_emul.c:326-334 | A run of the island of LDUMAXB or CASB with a stray bit in Rs leaves 1 in the byte where the architecture gives 2 and 7. |
| ConcurrentResults.AdditionsConserve | tests/test_lse_emul.c:590-636 | In any explained log where only LDADDs touch a cell, the cell is its first value plus every addend modulo its width. |
| ConcurrentResults.RunConserves | tests/test_lse_emul.c:590-636 | The same for every run of any number of threads, as a condition on what the threads start and store. |
| Bcax.DecodeEncodeBcax | src/isa_emul.c:403-412 | Every BCAX register choice is recovered from its encoding. |
| Bcax.OnlyBcax | src/isa_emul.c:403-412 | Every word decode_bcax takes is the BCAX encoding of the registers it returns. |
| Bcax.WithTemporary | src/isa_emul.c:415-443 | With a temporary the island computes BCAX, restores the temporary and SP, and writes only the 16 bytes below SP. |
| Bcax.BcaxExact | src/isa_emul.c:415-443 | The island computes BCAX if and only if Vd, Vn and Va are not one register, or that register and Vm are zero. |
| Bcax.ClobberBreaksBcax | src/isa_emul.c:420-425 | BCAX V0, V0, V1, V0 with 1 in V0: the island leaves 0, BCAX gives 1. |
| IsaPatch.IslandWithinReserve | src/isa_emul.c:445-463 | Every island fits in the 24 or 5 words reserved for its site and all its fields are encodable. |
| IsaPatch.EstimatePoolSize | src/isa_emul.c:445-463 | The estimate is the sum of the reservations of all words: 96 bytes for each LSE word and 20 for each BCAX word. |
| IsaPatch.Patch | src/isa_emul.c:465-517 | The pass patches exactly the words that need an island and are in range, packs islands without overlap, leaves all other words of code and pool alone, and never stops early with a pool of the estimated size. |
| IsaPatch.SitesDisjoint | src/isa_emul.c:465-517 | Different sites have different words and disjoint islands. |
| IsaPatch.EntryReaches | src/isa_emul.c:474-490 | Each patched word decodes to a B whose target is its own island. |
| IsaPatch.IslandDecodes | src/isa_emul.c:474-490 | The island in the pool decodes to the intended instructions; its return branch reaches the next word if and only if the island starts at most 2^25 + 2 - length words above the site. |
| IsaPatch.ReturnCanMiss | src/isa_emul.c:480-481 | What the pass makes of one BCAX word with its pool at the end of the forward range: the word is patched, the entry branch reaches the island, and the last pool word does not branch to the word after the site. |
| IsaPatch.SecondPassIdle | src/isa_emul.c:465-517 | When every word that needed an island got one, a second pass changes nothing. |
| PatchedSite.IslandFetched | src/isa_emul.c:474-490 | Every pool word of an LSE site within the return range is fetched as the instruction the emitter meant, the return branch included. |
| PatchedSite.RunIsFetched | src/isa_emul.c:465-517 | In every state of the concurrent machine the step of a core in a site's island is the step of the word fetched at its address, and the last one leads to the word after the site. |
| PatchedSite.SiteExecutes | src/isa_emul.c:465-517 | A core that comes to a patched LSE site and runs what it fetches, whichever store-exclusives fail, first comes to the next word with the registers, flags and memory of the instruction; architectural ones when Rs is zero-extended where that matters. |
| PatchedSite.SiteFinishes | src/isa_emul.c:465-517 | It does come there, within 29 instructions when store-exclusives are granted. |
| PatchedBcax.BcaxFetched | src/isa_emul.c:492-510 | Every pool word of a BCAX site within the return range is fetched as the instruction the emitter meant. |
| PatchedBcax.BcaxSiteExecutes | src/isa_emul.c:403-517 | A core that comes to a patched BCAX site and runs what it fetches is at the next word within six instructions, SP and all memory but the 16 bytes below it unchanged; its vector registers are those of BCAX if and only if Vd, Vn and Va are not one register, or that register and Vm are zero. |
| TextReplay.RewriteSettles | src/machgate.c:1037-1083 | A rewritten word is never rewritten again. |
| TextReplay.RewriteOfFields | src/machgate.c:635-660 | LDAPR of each size and register pair becomes LDAR of the same, a read of TPIDRRO_EL0 one of TPIDR_EL0 into the same register, by the encodings of the architecture. |
| TextReplay.OnlyThese | src/machgate.c:1037-1083 | No other word is rewritten, and a word is taken for LDAPR if and only if it is the encoding of LDAPR for some size and registers. |
| TextReplay.LdaprIsNoSwap | src/isa_emul.c:175-220 | A rewritten LDAPR is not taken for an LSE instruction, although LDAPR itself would be. |
| TextReplay.ScanSection | src/machgate.c:1058-1076 | The scan rewrites every LDAPR and TPIDRRO read of a section in place and records them in order, up to the cap. |
| TextReplay.ReplaySection | src/machgate.c:1037-1057 | The replay loop changes a section exactly as replaying the list from its cursor does, and advances the cursor. |
| TextReplay.ReplayEqualsScan | src/machgate.c:635-660 | Replaying the recorded list over the original ascending sections yields the scanned text if and only if the recording did not overflow. |
| TextReplay.OverflowLosesRewrite | src/machgate.c:635-660 | One section with one LDAPR more than the list holds: the replay differs from the scan. |
| TextReplay.ScanLeavesNone | src/machgate.c:1037-1083 | After the scan no word is LDAPR or a TPIDRRO read, and no rewritten LDAPR decodes as LSE. |
| SyscallIsland.FrontBuildsFrame | src/syscall/syscall_gate.c:397-425 | Up to the call the island lowers SP by 192, fills the frame with x0-x18, x30, NZCV and the resume address, and passes it in x0. |
| SyscallIsland.BackRestores | src/syscall/syscall_gate.c:426-445 | After the call the island reloads registers and flags from the frame and raises SP. |
| SyscallIsland.IslandCalls | src/syscall/syscall_gate.c:397-425 | Run from its first word the island leaves by a call to the address in x16, with its own next word in x30. |
| SyscallIsland.IslandJumps | src/syscall/syscall_gate.c:426-450 | Run from the word after the call it leaves by a jump to the address it has reloaded into x16. |
| SyscallIsland.IslandReturns | src/syscall/syscall_gate.c:397-450 | Stepped from its first word the island enters the dispatcher with the guest's registers in the frame, having written only the 192 bytes below SP. When a conforming dispatcher returns, whatever it wrote, the guest gets back its SP and callee-saved registers, x0-x15, x17, x18, x30 and NZCV from the frame, and control goes to the frame's pc with that address in x16: the resume address unless the dispatcher changed it. |
| SyscallIsland.CarryReports | src/syscall/syscall_gate.c:167-177 | set_failure and set_success reach the guest's carry flag and leave N, Z and V alone. |
| SyscallIsland.WordsDecode | src/syscall/syscall_gate.c:97-156 | The emitted words decode to the island's instructions. |
| SyscallIsland.LiteralsStored | src/syscall/syscall_gate.c:397-450 | The literal words hold the dispatcher and resume addresses. |
| SyscallIsland.EmitIsland | src/syscall/syscall_gate.c:397-450 | The emitter fills exactly the 96 words of the island. |
| GatePools.KeepPool | src/syscall/syscall_gate.c:476-491 | Registering a mapping apart from all earlier ones keeps pools disjoint from each other and from the text. |
| GatePools.KeepPatched | src/syscall/syscall_gate.c:575-591 | Patching one svc keeps every earlier site a branch to its own intact island, every other text word, and every byte of memory outside the sites and islands. |
| GatePools.BelowIsNear | src/syscall/syscall_gate.c:518-540 | Every address the downward search tries is within reach of the site. |
| GatePools.AboveIsNear | src/syscall/syscall_gate.c:542-563 | Every address the upward search tries is within reach of the site. |
| GatePools.Gate.constructor | src/syscall/syscall_gate.c:609-622 | The gate starts with the image's memory, no sites, and the adjacent pool as its only pool if there is one. |
| GatePools.Gate.FindPool | src/syscall/syscall_gate.c:493-503 | The first registered pool with room that the site can reach, or none if there is none. |
| GatePools.Gate.AllocateNear | src/syscall/syscall_gate.c:565-573 | Success adds exactly one empty pool at the end of the table, with room and within reach without a later check, at the first address of the searches that is granted; failure leaves the table, and means that it is full or that every address of both searches was asked for and refused. |
| GatePools.SearchCovers | src/syscall/syscall_gate.c:518-563 | Both searches together ask within one search step and a page of every address in reach at which a pool could lie. |
| GatePools.Gate.PatchInstruction | src/syscall/syscall_gate.c:575-591 | With a suitable pool the call succeeds, asks for no memory, and uses the first one, which is advanced by one island; with none it succeeds only by adding exactly one pool, and fails only when the table is full or every address was refused. On success the svc becomes a site and all invariants hold, among them that all memory outside sites and islands is the image's; on failure memory and sites are unchanged. |
| GatePools.Gate.PatchSection | src/syscall/syscall_gate.c:593-607 | The result is -1 or the number of svc words, and then the sites of the section are exactly its svc words; with a pool in reach of all of them and room for their islands it is their number, with no new pool, whatever the kernel answers. In any case earlier sites stay and all memory outside sites and islands is the image's. |
| GatePools.SiteReaches | src/syscall/syscall_gate.c:575-591 | Every patched svc decodes to a B whose target is its own island. |
| GatePools.IslandsDisjoint | src/syscall/syscall_gate.c:575-591 | Islands of different sites share no word and lie in the used part of registered pools. |
| PatchedSvc.FetchedInside | src/syscall/syscall_gate.c:397-450 | One word of an island fetched from the gate's memory, with its literals read from that memory, is one step of the island. |
| PatchedSvc.SvcCalls | src/syscall/syscall_gate.c:575-591 | From the address of a patched svc, 20 fetched instructions lead to the dispatcher, with the exact registers, frame and link address. |
| PatchedSvc.SvcResumes | src/syscall/syscall_gate.c:426-450 | From the link address, 17 fetched instructions lead to the frame's pc with the exact restored state. |
| PatchedSvc.SvcHandled | src/syscall/syscall_gate.c:575-607 | For every site of a valid gate and every dispatcher that returns: the guest enters the dispatcher with its frame, nothing but the 192 bytes below SP written, and resumes at the word after the svc, unless the dispatcher changed it, with SP and callee-saved registers kept and the rest from the frame. |
| GatePools.AdjacentPool.Alloc | src/loader.h:45-54 | A page-aligned chunk beyond everything handed out before and inside the pool, or null exactly when there is no pool or no room. |
| Leb.WriteUleb | src/eh_frame.c:569-577 | The writer appends the canonical ULEB128 bytes. |
| Leb.WriteSleb | src/eh_frame.c:580-592 | The writer appends the canonical SLEB128 bytes. |
| Leb.ReadUleb | src/resolver.c:1802-1815 | The reader never passes the end, and returns the value of the number modulo 2^64. |
| Leb.ReadSleb | src/resolver.c:1817-1833 | The reader never passes the end, and returns the signed value of the number modulo 2^64. |
| Leb.EhReadSleb | src/eh_frame.c:178-192 | The same for the do-while form, except that with nothing to read its value is arbitrary. |
| Leb.UlebRoundTrip | src/eh_frame.c:165-176 | Reading a written ULEB128 inside any surrounding bytes returns the value and its end. |
| Leb.SlebRoundTrip | src/eh_frame.c:178-192 | Reading a written SLEB128 inside any surrounding bytes returns the value and its end. |
| Leb.UlebLength | src/eh_frame.c:569-577 | A value below 128^n takes at most n bytes. |
| Rebase.Turn | src/resolver.c:3411-3481 | One turn of the switch rebases exactly the addresses of the decoded operation and moves the cursor as it says. |
| Rebase.OpcodeTable | src/resolver.c:3411-3481 | Each opcode, from its immediate and the numbers after it, rebases its addresses at the stride it stands for, moves the cursor and the position as the format says; opcode 0 ends and those from 9 on are unknown. |
| Rebase.Run | src/resolver.c:3406-3483 | The machine terminates; memory is the original with every address of the decoded stream rebased in order, the counter their number, and failure exactly an unknown opcode. |
| Rebase.ExpansionMeansTheSame | src/resolver.c:3431-3477 | A stream and its expansion to single rebases denote the same addresses. |
| Rebase.RebasedWord | src/resolver.c:3431-3477 | Each aligned word ends as its original value plus the slide times the occurrences of its address. |
| Rebase.AlignedRun | src/resolver.c:3406-3483 | For an aligned image and stream, each word is the original plus slide times occurrences in the expanded stream, and other words keep every byte. |
| Rebase.ParseBytes | src/resolver.c:3411-3430 | Any encodable operation list is decoded back from its bytes. |
| Bind.Turn | src/resolver.c:3523-3597 | One turn of the switch emits the binds of the decoded operation and updates the bind state as it says. |
| Bind.OpcodeTable | src/resolver.c:3523-3597 | Each opcode but the symbol's, from its immediate and the numbers after it, emits its binds at the stride it stands for, sets its part of the state and moves on as the format says; opcode 0 ends and those from 13 on are unknown. |
| Bind.SymbolOpcode | src/resolver.c:3543-3547 | The symbol opcode sets the flags and the name, which runs to the next NUL, and emits nothing. |
| Bind.Run | src/resolver.c:3517-3599 | A pass emits the binds of the decoded stream in order, and fails exactly on an unknown opcode; a name that runs on beyond the stream ends it. |
| Bind.Passes | src/resolver.c:3485-3599 | Regular, weak and lazy passes run in this order, each from a fresh state, and a failing pass stops the rest. |
| Bind.ExpansionMeansTheSame | src/resolver.c:3563-3591 | A stream and its expansion to single binds, with DONE dropped where it only separates, emit the same binds. |
| Bind.RewrittenStream | src/resolver.c:3517-3599 | Every stream, lazy or not, can be rewritten as bytes with plain DO_BINDs only, on which the machine emits the same binds. |
| Chain.Walk | src/resolver.c:2961-3020 | The walk terminates, follows exactly the chain memory held at the start whatever it overwrites, and counts its rebases. |
| Chain.WordFixed | src/resolver.c:2967-3012 | With strides of at least 8 bytes each slot ends as the fixup of what it held before the walk. |
| Chain.OtherByte | src/resolver.c:2961-3020 | Bytes of no slot keep their value. |
| Chain.WalkMeaning | src/resolver.c:393-398 | A chain that encodes a list of binds and rebases is visited place by place in order, each once, leaves at each place what its fixup stands for, a rebase the image header plus the target in the offset format and the target plus the slide otherwise, and changes no other byte. |
| Chain.HighByte | src/resolver.c:3005-3008 | Storing a sum with a high byte added keeps its low 56 bits, and the top byte is high8 when the sum leaves it clear. |
| Chain.RebasedSlot | src/resolver.c:2967-3012 | After the walk each rebase place holds, in its low 56 bits, the header address plus the target in the offset format and the target plus the slide in the plain one, and exactly that sum and high8 when the sum leaves the top byte clear. |
| Chain.FormatsAgree | src/resolver.c:2961-3020 | A chain with targets as offsets from a base and the same chain with the base added to its targets, walked in the offset and in the plain format with header = base + slide, leave the same memory, byte by byte. |
| HashChain.Follow | src/resolver.c:1482-1500 | Following the links of a bucket from its head misses no element of the bucket. |
| SymbolIndex.Index.constructor | src/resolver.c:1378-1413 | The built buckets and chains link every indexed symbol to the previous one of its bucket. |
| SymbolIndex.Index.Find | src/resolver.c:1482-1500 | The lookup returns the highest-index eligible symbol of the name, or nothing; its chains strictly decrease. |
| SymbolIndex.Scan | src/resolver.c:1502-1519 | The linear scan returns the first eligible symbol of the name, or nothing. |
| SymbolIndex.ScannedParts | src/resolver.c:1502-1519 | A symbol takes part if and only if its stab bits are 0, its type is N_SECT and its name is in the string table, whatever its external bits. |
| SymbolIndex.FoundAlike | src/resolver.c:1396-1404 | Index and scan agree on whether a name is found, except exactly for names that are empty or stand only at string offset 0. |
| SymbolIndex.SameExactly | src/resolver.c:1482-1519 | For every table and name both return the same symbol if and only if the scan finds none, or the name is not empty, the first symbol it finds has a non-zero string offset, and every later symbol of the name has offset 0. |
| SymbolIndex.SameWhenUnique | src/resolver.c:1482-1519 | For a name of one symbol both return that symbol. |
| SymbolIndex.ZeroOffsetMissed | src/resolver.c:1396-1404 | A symbol whose name stands at string offset 0 is found by the scan and not by the index. |
| SymbolIndex.DuplicatesDiffer | src/resolver.c:1482-1519 | With two symbols of one name the index returns the second and the scan the first. |
| BindSlots.Registry.Find | src/resolver.c:532-547 | The entry of an address, or none exactly when it is not registered; the contents do not change. |
| BindSlots.Registry.Register | src/resolver.c:549-581 | Registering updates the map: the latest wins, address 0 is ignored, and a new key is dropped only when the map is full. |
| BindSlots.Registry.LookUp | src/resolver.c:583-595 | The lookup is the lookup in the map. |
| BindSlots.LatestWins | src/resolver.c:549-581 | After any run of registrations, repeated keys or not, a registered key holds its latest information, or is absent and the registry is full. |
| BindSlots.NothingDropped | src/resolver.c:549-581 | After a run of no more registrations than there is room for, every key holds its latest information. |
| BindSlots.DroppedOnlyWhenFull | src/resolver.c:562-564 | The registry never exceeds 32768 entries, and a registered key is missing only when it is full. |
| Cfi.FrameMeaning | src/eh_frame.c:721-780 | The instructions of a FRAME encoding, with any padding, mean the entry row and then the frame row. |
| Cfi.FrameRules | src/eh_frame.c:721-780 | The frame row has CFA = FP+16, LR at CFA-8, FP at CFA-16, the selected registers at consecutive slots from CFA-24, and no other rule. |
| Cfi.FramelessMeaning | src/eh_frame.c:838-886 | The instructions of a FRAMELESS encoding mean the entry row, and with non-zero stack the frameless row. |
| Cfi.FramelessRules | src/eh_frame.c:789-810 | The frameless row has CFA = SP+size, the k-th saved register at CFA-8k and no rule for LR; the size is that of `Compact.FieldsFound`. |
| Cfi.SavedSelect | src/eh_frame.c:735-780 | Bit i selects the i-th X pair and bit 8+i the i-th D pair, and nothing else. |
| Compact.FieldsFound | src/eh_frame.c:31-51 | From the number of an encoding with given fields, the emitter finds its mode, 16 times its stack field, its LSDA bit and its continuation bit. |
| Compact.SavedAre | src/eh_frame.c:735-780 | The registers it saves are the pairs X19 to X28 and D8 to D15 whose flags are set, in order. |
| EhEmit.Emitter.EmitCie | src/eh_frame.c:613-683 | The emitter appends one padded CIE record with its length patched in. |
| EhEmit.Emitter.EmitFrame | src/eh_frame.c:692-787 | The emitter appends one padded FDE record with the FRAME instructions. |
| EhEmit.Emitter.EmitFrameless | src/eh_frame.c:811-893 | The emitter appends one padded FDE record with the FRAMELESS instructions. |
| EhEmit.Emitter.EmitCopied | src/eh_frame.c:899-950 | The emitter appends one padded FDE record with no or copied instructions. |
| EhEmit.FindNative | src/eh_frame.c:395-409 | The first native FDE that starts at or covers the address. |
| EhEmit.Emitter.EmitEntry | src/eh_frame.c:1468-1516 | An entry gets the FDE its mode, flags and native match select, or none. |
| EhEmit.Emitter.EmitAll | src/eh_frame.c:1460-1520 | The section is two CIEs, the FDEs of the entries in order and a zero length; the count is their number; an overflow is reported exactly when the section is longer than the mapping. |
| EhEmit.RecordAligned | src/eh_frame.c:595-599 | Every record ends at a multiple of 8. |
| EhParse.ReadCie | src/eh_frame.c:263-306 | The FDE pointer encoding of a CIE, absolute where its data is cut short or not understood; `NativeFrames.CieRead` says which one by the augmentation letters. |
| NativeFrames.CieRead | src/eh_frame.c:263-320 | For any version, alignment factors, return register and letters L, P and R after z, in any order and number, the pointer encoding found is the number that belongs to the first R, or absolute without one. |
| EhParse.Parse | src/eh_frame.c:322-393 | The parser terminates and returns the FDEs of the section with non-zero address in order, reading on into what is mapped after the section where the code does. |
| NativeFrames.FdeRead | src/eh_frame.c:350-386 | An FDE written in any direct encoding of fixed size, absolute or pc-relative, with 32- or 64-bit length and any augmentation data, is read back with its address, range and instructions. |
| NativeFrames.NativeParsed | src/eh_frame.c:322-393 | Parsing a native section of any CIE and FDEs written in the encoding it announces returns exactly those with non-zero address, in order. |
| NativeFrames.AugmentedParsed | src/eh_frame.c:322-393 | The same for a CIE given by its letters, with the encoding those letters announce. |
| NativeFrames.PlainParsed | src/eh_frame.c:322-393 | The same for a CIE without augmentation, with absolute pointers and no augmentation data. |
| NativeFrames.IndirectRead | src/eh_frame.c:194-229 | An indirect encoding reads what is stored at the address the direct one gives. |
| EhParse.CollectHeaders | src/eh_frame.c:1549-1573 | The synthetic collector returns all FDEs in order. |
| EhRoundTrip.OperandRead | src/eh_frame.c:231-259 | A number in the range of any supported pointer encoding, signed or unsigned, is read back from its bytes. |
| EhRoundTrip.EncodingSizes | src/eh_frame.c:194-259 | The size of each pointer format, from its low four bits; the others are not supported. |
| EhRoundTrip.PointerRead | src/eh_frame.c:194-229 | A direct encoded pointer means its number, or for the pc-relative form its distance from where it stands. |
| EhRoundTrip.FdeParsed | src/eh_frame.c:350-386 | Parsing an emitted FDE returns its address, range and where its instructions start and end. |
| EhRoundTrip.CieParsed | src/eh_frame.c:613-683 | Both emitted CIEs announce augmentation data and absolute pointers, and yield no FDE. |
| EhPointers.CieNumbers | src/eh_frame.c:613-683 | The emitted CIE says version 1, code factor 4, data factor -8 and return register 30, and holds the personality as an absolute pointer. |
| EhRoundTrip.SectionParsed | src/eh_frame.c:322-393 | Parsing any emitted section, whatever is mapped after it, returns exactly the emitted FDEs with non-zero address, in order. |
| EhResults.SectionAligned | src/eh_frame.c:595-599 | Every FDE of a section starts at a multiple of 8. |
| EhResults.SectionSize | src/eh_frame.c:1449-1520 | The exact size of the section from its entries, each rounded up to a multiple of 8. |
| EhResults.SectionFits | src/eh_frame.c:1449-1451 | The section takes at most count*128+4096 bytes and the sum of the instructions it copies, so it fits when that sum is no more than the native section. |
| EhResults.CopiesOverflow | src/eh_frame.c:1449-1520 | When every entry copies more than 128 bytes, enough entries outgrow the mapping for any native size. |
| EhResults.SectionHeaders | src/eh_frame.c:1549-1573 | The collector finds every emitted FDE with its address, range and position. |
| EhResults.EntryFound | src/eh_frame.c:1468-1516 | Every compact unwind entry that gets an FDE, its own or a copy, is found by the parser in the emitted section with its address, its size and exactly its instructions, padded. |
| EhResults.EntryUnwinds | src/eh_frame.c:1468-1516 | For every entry with an FDE of its own the parser hands out from the section instructions that mean the frame layout of its encoding: FRAME, FRAMELESS or CFA = SP. |
| Compact.WhoGetsAnFde | src/eh_frame.c:1468-1516 | Without a native copy an entry gets an FDE if and only if its mode is not DWARF and it starts a function. |
| Compact.CompactUnwinds | src/eh_frame.c:1468-1516 | For every such entry given by its fields, the parser hands out from the emitted section, with its address and size, instructions that mean CFA = SP, then CFA = SP + 16 * stack or FP + 16 with the saved registers below it, as the fields say. |
| Compact.UnwindsToCaller | src/eh_frame.c:692-893 | On a stack laid out by a FRAME or FRAMELESS prologue with these fields, those rows give the caller's SP and every saved register its caller's value. |
| EhPointers.LsdaPointer | src/eh_frame.c:706-711 | An entry with the LSDA bit and an LSDA gets an FDE whose eight bytes of augmentation data are the LSDA's address. |
| EhPointers.CopyFound | src/eh_frame.c:899-950 | An entry with an LSDA whose function a native FDE covers gets a copy of the first such FDE: its address, the native range, and exactly the native instructions, padded. |
| EhResults.CieUnwinds | src/eh_frame.c:613-683 | In both emitted CIEs the bytes after the augmentation data, where the parser ends it, mean CFA = SP. |
| EhLimits.CrowdParsed | src/eh_frame.c:322-393 | 188 bytes of a native section that parse to one FDE of 135 instruction bytes. |
| EhLimits.CrowdOverflows | src/eh_frame.c:1449-1520 | 127 entries, sized as the collector leaves them, that copy the native FDE of those 188 bytes outgrow the mapping. |
| EhLimits.CarriedExactly | src/eh_frame.c:1477-1505 | Every FDE of every section carries the LSDA pointer its CIE announces, and none otherwise, if and only if its entry, when it has the LSDA bit, has an LSDA pointer exactly when there is a personality. |
| EhLimits.StrayLsda | src/eh_frame.c:706-711 | For every personality a section of one entry whose FDE does not match its CIE. |
| Unwind.FindLsda | src/eh_frame.c:1051-1066 | The binary search; on a sorted table it agrees with the linear search. |
| Unwind.SearchAgrees | src/eh_frame.c:1051-1066 | On a strictly sorted table binary and linear search agree. |
| Unwind.InsertionSort | src/eh_frame.c:1113-1122 | The in-place sort leaves the array as the insertion-sorted list. |
| Unwind.SortSorts | src/eh_frame.c:1113-1122 | The sorted list is an ordered permutation. |
| Unwind.SetSizes | src/eh_frame.c:1124-1131 | Each size becomes the gap to the next offset, the last 256. |
| Unwind.Collect | src/eh_frame.c:966-1135 | Exactly the counted total is filled, then sorted and sized. |
| Unwind.CollectedList | src/eh_frame.c:966-1135 | The result is a permutation of what the pages hold, consecutive ranges abut, and the last has size 256. |
| UnwindInfo.CollectSection | src/eh_frame.c:966-1135 | From the raw section: -1 exactly when the version is not 1, otherwise the entries of the pages its index refers to, sorted and sized. |
| UnwindInfo.LaidOutRead | src/eh_frame.c:55-97 | Wherever a version 1 section places its header, common encodings, index, LSDA tables and second-level pages, exactly these tables are read from it. |
| UnwindInfo.LaidOutCollected | src/eh_frame.c:966-1135 | The result for such a section is a permutation of what its tables hold, consecutive ranges abut, and the last has size 256. |
| UnwindInfo.FunctionsCollected | src/eh_frame.c:966-1135 | For a section whose pages, regular or compressed, list given functions, each with its start, encoding (from the common or the page's own table) and LSDA, the result is a permutation of those functions, consecutive ranges abut, and the last has size 256. |
| Unwind.MergeIndex | src/eh_frame.c:1578-1594 | The merged index is sorted by start and consists of the synthetic entries and the unshadowed native ones. |
| Unwind.IndexCovers | src/eh_frame.c:1578-1594 | An entry is in the index if and only if it is synthetic, or native with a start that is not synthetic; every native start is covered. |
| Fnv.Fnv1a64 | src/startup_cache.c:77-86 | The loop computes FNV-1a. |
| Fnv.KnownHashes | src/startup_cache.c:77-86 | The offset basis and the prime of the hash. |
| Fnv.StepInjective | src/startup_cache.c:82-83 | One FNV-1a step is injective in the state and in the byte modulo 2^64. |
| Fnv.OneByteChange | src/startup_cache.c:77-86 | Changing exactly one byte always changes the hash. |
| StartupCache.Open | src/startup_cache.c:213-306 | Opening succeeds exactly when size, magic, version, both checksums, key and lengths agree, and returns the parts the header describes. |
| StartupCache.Reopened | src/startup_cache.c:408-475 | A published file is accepted for its own key and no other. |
| StartupCache.DraftRefused | src/startup_cache.c:408-475 | The file before its payload checksum is filled in is refused for every key, unless its payload hashes to 0. |
| StartupCache.PartsReturned | src/startup_cache.c:274-300 | Opening a published file returns the published frame, pairs, patches and counts. |
| StartupCache.PatchAt | src/startup_cache.h:35-39 | Each patch is read back from its place in the array. |
| StartupCache.PrefixRejected | src/startup_cache.c:247-291 | Every strict prefix of a published file is rejected. |
| StartupCache.ByteRejected | src/startup_cache.c:247-291 | Every file that differs from a published one in exactly one byte is rejected. |
| StartupCache.InsideExactly | src/startup_cache.c:272-291 | The parts of an accepted file lie inside it if and only if the sizes in its header add up to its size without wrapping. |
| StartupCache.WrappingFileAccepted | src/startup_cache.c:272-291 | For every key a file of a header alone is accepted whose frame size is 2^64 - 16. |
| CachePublish.NextKeeps | src/startup_cache.c:390-503 | Every step of any publisher or reader, including failures and crashes, keeps the invariant. |
| CachePublish.AlwaysComplete | src/startup_cache.c:390-503 | After any interleaving the final path is absent or one publisher's complete file, and so is every file a reader still has mapped. |
| CachePublish.ReaderGetsPublished | src/startup_cache.c:213-306 | A reader that accepts gets exactly the artifacts some publisher stored under the same key. |
| CachePublish.PublicStays | src/startup_cache.c:480-503 | No step changes a file that is visible at the final path. |
| CachePublish.MappedStays | src/startup_cache.c:480-503 | Over any run, whatever replaces it at the final path, a file that a reader has mapped keeps its content. |
| Patcher.FindUnique | src/patcher.c:338-363 | The scan reports none, exactly one or several matching windows, and the one hit. |
| Patcher.FindIffUnique | src/patcher.c:398-424 | A find resolves to an address if and only if it is the only matching window of its range. |
| Patcher.LocationMeans | src/patcher.c:365-397 | A symbol location is the address found for its name plus the offset, a label location its value plus the offset, an absolute one the slide plus the number; they fail exactly for an unknown name. |
| Patcher.FindLooksAt | src/patcher.c:398-424 | A find looks at every fourth address from the start of the symbol whose window ends by its end or its `within` limit, and at no other. |
| Patcher.FindLabel | src/patcher.c:326-336 | The label table acts as a map of the resolved labels. |
| Patcher.ResolveLets | src/patcher.c:538-567 | The let passes succeed exactly when every let resolves against the lets before it. |
| Patcher.PlanLine | src/patcher.c:569-608 | An at line is planned exactly when its locations resolve, its branch is in range and its expectation holds in the original memory. |
| Patcher.Apply | src/patcher.c:538-621 | A line that does not resolve or an expectation that fails leaves memory identical and returns -1; otherwise the lines are written in order and counted, up to the first whose page cannot be made writable, which returns -1. |
| Patcher.HalfApplied | src/patcher.c:609-619 | Two lines of which the second cannot be written: the call fails with the first written. |
| Patcher.LastWriteWins | src/patcher.c:610-619 | A write that no later one overlaps is what memory holds. |
| Patcher.OtherByte | src/patcher.c:610-619 | Bytes of no written word keep their value. |
| Patcher.BranchPlanned | src/patcher.c:580-597 | A planned b or bl decodes to a branch whose target is its location. |
| Patcher.AppliedLine | src/patcher.c:569-619 | After success memory holds at each at line's address the word planned for it, unless a later line overlaps. |
| Patcher.AppliedBranch | src/patcher.c:569-619 | After success a b or bl line that no later line overlaps is, in memory, a branch to its resolved target. |
| Patcher.AppliedRaw | src/patcher.c:569-619 | After success every at line's location resolves, its expectation held before, and a raw word that no later line overlaps is in memory at that address. |
| Patcher.LabelsAreEarlierLets | src/patcher.c:551-567 | The labels a line sees while lets are resolved are exactly the lets before it. |
| Patcher.LatestLet | src/patcher.c:551-567 | Of several lets of one name the latest decides. |
| Sgr.EncodeBuffer | tools/sgr_repack.c:57-67 | The in-place loop masks every other byte with the keystream of the seed and leaves the rest. |
| Sgr.DecodeBuffer | tools/sgr_extract.c:64-80 | The in-place loop unmasks all but the trailer with the seed the trailer holds. |
| Sgr.OpenedSealed | tools/sgr_extract.c:64-80 | Decoding undoes encoding plus trailer, for every seed and length. |
| Sgr.KnownDraws | tools/sgr_repack.c:22-42 | The seeding constants and what a draw makes of states with one word set. |
| Sgr.StartDrops | tools/sgr_repack.c:57-67 | The keystream starts after one draw and as many more as its low four bits say. |
| Sgr.MaskedAt | tools/sgr_repack.c:57-67 | Byte 2k is XORed with the low byte of the k-th draw, and odd bytes stay. |
| Sgr.Build | tools/sgr_repack.c:217-286 | The archive is the three header strings and the entries in order. |
| Sgr.Parse | tools/sgr_extract.c:227-301 | Header and entry parse of an archive. |
| Sgr.BuiltParsed | tools/sgr_extract.c:227-301 | Parsing any built archive recovers the header strings up to 255 bytes and every entry up to the first whose name is empty or longer than 2000 bytes, an empty one as its trailer. |
| Sgr.EmptyFileReturnsTrailer | tools/sgr_extract.c:289-298 | An archive of one empty file, repacked with any seed, is extracted as a file of its four trailer bytes. |
| Sgr.RestoredIffNonEmpty | tools/sgr_extract.c:289-298 | The packed list comes back if and only if no entry is empty. |
| Sgr.RecoveredIff | tools/sgr_extract.c:227-301 | What is recovered is the archive if and only if its header strings have at most 255 bytes, its names 1 to 2000, and no entry is empty. |
| Sgr.UnpackedRepacked | tools/sgr_repack.c:225-326 | Extraction after repacking, for every archive below 4 GB and every seed, recovers what `Sgr.BuiltParsed` says, and the archive itself under exactly the condition of `Sgr.RecoveredIff`. |

## Left out

- dlopen and dlsym resolution, shims, GDB registration and diagnostics: foreign calls. Resolving one bind is a function parameter in `Chain` and an event in `Bind`.
- The individual Darwin system call handlers; only the frame the island passes and the carry convention are modelled.
- mprotect, cache maintenance and page permissions.
- Weak memory ordering beyond exclusive monitors, and alignment faults.
- Integer overflow of counters (`rebases_applied`, entry counts) and of pointer sums near 2^64.
- Leb.ReadUleb: shift counts of 64 and more are undefined in C; the model drops the shifted-out bits.
- Leb.ReadSleb: the same.
- Leb.EhReadSleb: the same.
- Bind.Run: that the memory after the stream holds the NUL of a name that runs on is taken for granted.
- SymbolIndex.Index.Find: a name without NUL ends at the end of the mapped memory. The cache of indexes per image and the allocation-failure path are left out.
- EhParse.Parse: bytes past the mapped memory read as 0; 64-bit record lengths that overflow `size_t` are not modelled.
- EhEmit.Emitter.EmitAll: a write beyond the mapping is reported, but what it overwrites is not modelled. Distances and lengths are those of a section below 4 GB in the parsing results.
- Unwind.Collect: pages are lists here; `UnwindInfo.CollectSection` reads them from the section.
- Unwind.MergeIndex: `qsort` is some sorted arrangement; the encoded header table and its cached form are not modelled.
- Equivalence of FRAMELESS frames with the layout of Apple's unwinder; only the layout stated in the code is proved.
- CachePublish: cache paths, the enabling switch and the mapping of the frame near the image are not modelled; sizes are those of buffers that fit in 64 bits.
- Patcher.Apply: parsing of patch text is not modelled.
- GatePools.Gate.TryPool: which addresses the kernel grants is arbitrary.
- Sgr.Parse: manifest handling, file names on disk and zlib itself are not modelled.
- Configuration, trampolines, ELF symbol files, stack set-up and argument building: easier members that add little.
