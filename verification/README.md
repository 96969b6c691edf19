# A verified model of syscall_intercept

syscall_intercept patches the code of a running process so that its system calls go through a hook.
This project models that hot-patcher and the code around it in Dafny and proves what it is for: a
patched program does what the original program did, except that every call passes the hook first.

The model follows the program's stages.

* **Crawl** (`Disasm`, `Listing`, `JumpTable`, `Crawl`, `PatchArray`). A linear sweep over the text
  records each `syscall` with its neighbours, the long NOPs, and a bitmap of jump destinations.
* **Plan** (`NopMatching`, `NopPlan`, `Plan`, `Overlap`, `Windows`, `Patcher`, `Counterexamples`, `Patterns`). For each syscall either a NOP
  nearby is used as a mini trampoline, or a window of relocatable neighbours of at least five bytes is
  overwritten. Each return address becomes a jump destination before the next syscall is looked at.
* **Generate and write** (`Encoding`, `WrapperCode`, `Placement`, `Activate`). A wrapper per syscall, a
  trampoline table within reach of the text, and the jumps written over the text in place.
* **Put together** (`Pipeline`, `InterceptObject`). One object, from its bytes to the installed patches.
* **Run** (`Machine`, `Simulation`, `SimulationSteps`, `SimulationRun`). A machine that decodes the bytes
  the patcher reads and emits, and the proof that the patched code simulates the original code.
* **Hook** (`Hooking`, `WrapperFrame`, `WrapperProtocol`, `WrapperThread`). The C routines, the two assembly layers around them as
  functions of the state and as they run, and the protocol between them (R11 is 0, 1 or 2; RCX is 0 or 1).
* **From the assembly to the run** (`Interception`, `Reporting`, `Example`). The simulation with the modelled template at every syscall, one object from its
  bytes to its runs, and a small instance.
* **Beside the patcher** (`LogBuffer`, `LogNumbers`, `LogEscape`, `LogFlags`, `Fsp`, `FspGetdents`). The lock-free
  log buffer of the example logger, the printers of the log, and the chunked I/O of the file system shim.

`dafny verify dfyconfig.toml` checks everything.

## The main results

1. **Meaning is preserved** (`SimulationRun.PatchedRunSimulates`, `SimulationRun.PatchedRunIsSimulated`,
   `Interception.InterceptedObjectSimulates`, `Interception.Intercept`). For any program, processor, kernel, compiled C code, number of patches and run length: a
   well-behaved run of the original code from one observable address to another is matched by a run of the patched code that
   visits the same observable addresses in the same order, each in a state that agrees, with the same calls made to the kernel.
   Conversely, however many steps the patched code has taken, the places it has visited are those of a run of the original code.
   Observable are all addresses that are not in a wrapper, in the table, or strictly inside overwritten bytes. What happens at a syscall
   is the modelled template, with a client that forwards every call; the patch it reports and the routine it calls are read from its bytes.
   `InterceptObject.PatchObject` shows that the modelled stages, on any
   text, leave behind what this theorem needs, and when they abort.
2. **The bytes written never collide, exactly when** (`Overlap.PlansDisjointIff`) no RIP-relative LEA sits between two syscalls that get
   no NOP; **jump destinations stay out of the windows, exactly when** (`Overlap.DestinationsStayOutIff`) in addition no known
   jump destination separates a LEA from the syscall it is taken with. The source accepts a LEA before it asks whether
   there is such a destination; `Counterexamples.SharedLea` and `Counterexamples.CutOffLea` are short texts on which that goes wrong.
3. **The NOP assignment is a maximum matching** (`NopMatching.GreedyIsMaximum`, `NopPlan.PlanIsMaximum`), by an exchange
   argument over all assignments of distinct NOPs that two-byte jumps can reach. **Windows are exactly** (`Windows.CoveredKinds`,
   `Windows.CoveredIff`) the neighbours of the kinds that may move, as far as no destination cuts them off.
4. **The wrapper protocol** (`WrapperProtocol.TemplateHolds`, `WrapperProtocol.KernelReachedOnce`, `WrapperThread.Thread.RunTemplate`):
   from every stack pointer the `hlt` is unreachable, C is entered at most twice and with an aligned stack, nothing at or above the red
   zone is written, all general registers but RAX, RCX and R11 come back, and the kernel is reached exactly once or not at all.
5. **The log buffer** (`LogBuffer`), for any number of threads and every interleaving of their atomic steps: reservations tile the buffer,
   every byte ends up in its place, appends of up to 0x1001 bytes are exactly those that never leave the buffer, and the
   flush never happens, because the success path does not decrement `writers`.

## What the model rests on

* **Disassembler.** Its answers are an input: any function that returns the address asked for and stays inside the text. The
  simulation further asks that its lengths and syscalls are true of the bytes (`Simulation.Describes`), and, of the instructions that are
  moved only, that they can be (`Simulation.DescribesMoved`); for a LEA that includes the register bits,
  which the source extracts correctly exactly when there is a REX prefix (`Encoding.ArgRegisterBitsIff`).
* **No gaps**, for the plans and the simulation. `Tiled`: the sweep skips no byte. `Crawl.SweepTiled` derives it from the disassembler's
  answers, and `Crawl.SyscallAddressIff` shows what a gap does: the address recorded for a syscall is right exactly when the byte after
  it decodes. `InterceptObject.PatchObject` does not need it.
* **Entries.** In the text, control falls through, or it arrives at an instruction that does not start strictly inside a window
  (`Simulation.Entry`). `SimulationRun.KnownRunIsGood` shows that destinations known before planning, and returns from calls, are such.
* **Liveness.** The template loses RCX, R11, the flags and memory below the red zone. `agree` is any relation between states that
  tolerates this at syscalls and that the program's own steps keep (`Simulation.Tolerates`).
* **Code is not data**; the pointer of a `jmp *0(%rip)` of the program itself is not overwritten. Addresses are integers; a wrap-around at 2^64 is modelled only in the
  bytes of absolute jumps, `movabs` and LEA.
* **Memory** outside code is a map from addresses to 64-bit words; overlapping unaligned words are not modelled.
* **The kernel** reads the low 32 bits of RAX and six argument registers; otherwise it is an arbitrary function, also of all earlier calls. After
  rt_sigreturn the thread continues where and with what the signal frame says; in the text that must be an instruction that does not start strictly
  inside a window.
* **C code**, called with an aligned stack, keeps RSP and writes no stack but its own (section 3.2.2 of the System V AMD64 ABI). The call
  being made, with the hooks around it, does not concern the stack zone the wrapper uses (`WrapperProtocol.Polite`);
  `Interception.FileCallsArePolite` gives a kernel that reads and writes the program's memory and meets this.
* **Inputs** in place of I/O: the sorted list of mappings, `mmap_min_addr`, the addresses found in symbol and relocation tables, the
  bytes of the template and its two offsets, the answers of magic handler, hooks, file system backend and `readdir`.
* **Aborts** (`xabort`) are an `ok` result that is false, with the exact condition in the contract.

Where the code and its comments differ the model follows the code: the search for the trampoline table passes over the lowest page in
reach when the reach begins on a page boundary (`Placement.BelowFirstGuess`), `xprint_escape` may return a pointer two characters past `dst_size`
(`LogEscape.StaysWithinIff`), the branch of `print_flag_set` for a zero flag is never reached, and the wrapper reserves 0x20 bytes
and aligns to 16, whatever the documentation of the assembly wrappers says.

## Model

| member | source | states |
|---|---|---|
| Encoding.CreateJump | src/patcher.c:126-148 | writes the five bytes of a jump and nothing else, or aborts exactly when the displacement does not fit 32 bits |
| Encoding.JumpRoundTrip | src/patcher.c:135-147 | the bytes decode as a jump to the intended target, whatever follows them |
| Encoding.CreateShortJump | src/patcher.c:650-660 | writes two bytes, or aborts exactly when the displacement does not fit 8 bits |
| Encoding.ShortJumpRoundTrip | src/patcher.c:653-659 | the bytes decode as a short jump to the intended target |
| Encoding.JumpFitsIff | src/patcher.c:135-142 | a jump is refused exactly when no five-byte encoding would arrive at the target |
| Encoding.ShortJumpFitsIff | src/patcher.c:653-657 | a short jump is refused exactly when no two-byte encoding would arrive |
| Encoding.CreateAbsoluteJump | src/patcher.c:97-119 | writes fourteen bytes and returns the place after them |
| Encoding.AbsoluteJumpRoundTrip | src/patcher.c:97-119 | the bytes decode as an indirect jump whose pointer is the target |
| Encoding.CreateMovabs | src/patcher.c:553-572 | writes the ten bytes of a `movabs` and returns the place after them |
| Encoding.MovabsRoundTrip | src/patcher.c:553-572 | the bytes decode as a load of that value into that register, for all sixteen registers |
| Encoding.ArgRegisterBitsIff | src/disasm_wrapper.c:301-315 | the extracted bits name the LEA's register exactly when it has a REX prefix |
| Encoding.LeaToMovabsIff | src/patcher.c:594-603 | the `movabs` that replaces a LEA has its effect exactly when there is a REX prefix and REX.W is set or the address fits 32 bits |
| Encoding.LeaDecodes | src/disasm_wrapper.c:301-315 | the processor's reading of a REX.W LEA agrees with the extracted register and the computed address |
| Counterexamples.LeaWithoutRex | src/disasm_wrapper.c:310-314 | a concrete LEA without REX whose register is taken for r8 |
| Disasm.CheckOpsMeaning | src/disasm_wrapper.c:138-199 | after all operands the RIP flag is set exactly when some operand is RIP, is addressed relative to it, or is a jump destination other than a register; a jump is relative exactly if it has such a destination, indirect exactly if it has a register |
| Disasm.CheckOpsTarget | src/disasm_wrapper.c:138-199 | the address reported is that of the last operand that refers |
| Disasm.NextInstruction | src/disasm_wrapper.c:206-320 | an endbr64 is told by its four bytes and is four bytes long; otherwise a failure and a decoded instruction are told apart by the length, and kind, size, flags and the address referred to are those of the decoder's answer |
| JumpTable.SetBitInByte | src/intercept_desc.c:224-237 | setting one bit of a byte leaves the seven others as they were |
| JumpTable.Bitmap.constructor | src/intercept_desc.c:156-166 | a fresh table holds no address |
| JumpTable.Bitmap.HasJump | src/intercept_desc.c:246-253 | true exactly for the addresses in the set of marks; every byte touched is inside the table |
| JumpTable.Bitmap.MarkJump | src/intercept_desc.c:259-264 | adds one address in the text to the set; an address outside changes nothing |
| Listing.SyscallIndicesComplete | src/intercept_desc.c:519-536 | every syscall that has a successor is recorded, in order |
| Listing.PatchesComplete | src/intercept_desc.c:519-536 | exactly one patch for each of them, with its true two predecessors and successor, unset before the start |
| Listing.NopIndicesComplete | src/intercept_desc.c:489-490 | exactly NOPs of at least seven bytes are in the table, and one is missing only if the table is full of earlier ones |
| Listing.NopsComplete | src/intercept_desc.c:211-219 | the table holds the address and size of exactly these NOPs |
| Listing.NopTableIncreasing | src/intercept_desc.c:211-219 | the table is in strictly increasing address order, gaps or not |
| Crawl.InterceptDesc.constructor | src/intercept_desc.c:173-206 | empty tables, with room for 1024 NOPs up to 0x10000 bytes of text, and for one per 64 bytes above |
| Crawl.InterceptDesc.MarkNop | src/intercept_desc.c:210-219 | appends a NOP unless the table is full |
| Crawl.InterceptDesc.RecordInstruction | src/intercept_desc.c:486-536 | one iteration extends what is recorded from n to n + 1 instructions |
| Crawl.InterceptDesc.CrawlText | src/intercept_desc.c:455-546 | patches, NOP table and marks are exactly those of the whole listing, added to the marks that were there |
| Crawl.SweepFirst | src/intercept_desc.c:476-484 | the sweep goes on at the first address that decodes |
| Crawl.SweepSteps | src/intercept_desc.c:476-543 | each listed instruction is followed by the next one that decodes |
| Crawl.SyscallAddressIff | src/intercept_desc.c:526 | the recorded address is that of the syscall exactly when the byte after it decodes |
| Counterexamples.GapMovesSyscall | src/intercept_desc.c:481-526 | a concrete text whose syscall, followed by an undecodable byte, is recorded one byte too high |
| Crawl.SweepAdjacent | src/intercept_desc.c:476-543 | without a gap the next listed instruction starts where this one ends |
| Crawl.SweepTiled | src/intercept_desc.c:476-543 | without gaps the listing tiles the text |
| Crawl.SweepSpaced | src/intercept_desc.c:476-543 | with or without gaps the listed instructions follow each other inside the text |
| PatchArray.HasPow2CountIff | src/intercept_desc.c:378-382 | the bit trick holds exactly for powers of two |
| PatchArray.FittingIsLeast | src/intercept_desc.c:390-406 | the capacity is the least power of two that is not below the count |
| PatchArray.FullIff | src/intercept_desc.c:397-403 | the array is full exactly when the bit trick says so |
| PatchArray.Items.AddNewPatch | src/intercept_desc.c:390-406 | the new entry is in bounds, earlier entries survive, and the capacity stays least |
| NopMatching.Assign | src/patcher.c:220-256 | the NOP chosen is in range and is never offered again |
| NopMatching.InRangeIff | src/patcher.c:178-207 | a NOP counts as in range exactly when a short jump in the syscall's place can reach its third byte, from -128 to 127 |
| NopMatching.ScanIsAssign | src/patcher.c:220-256 | the answer of the scan is determined by its meaning: the first NOP that a short jump reaches, everything before it out of reach and behind |
| NopMatching.GreedyIsMatching | src/patcher.c:178-256 | each NOP serves at most one syscall, and a short jump from it reaches the NOP |
| NopMatching.SkippedNopsAreUseless | src/patcher.c:248-255 | a skipped NOP is out of range of this and every later syscall |
| NopMatching.TakesOver | src/patcher.c:178-207 | in any matching, a later syscall that holds an earlier NOP is also in range of the NOP of the earlier syscall |
| NopMatching.ExchangePair | src/patcher.c:178-256 | in any matching a later syscall can take over the NOP of an earlier one |
| NopMatching.GreedyIsMaximum | src/patcher.c:220-256 | no assignment of distinct NOPs that short jumps reach serves more syscalls |
| NopPlan.PlannerIsGreedy | src/patcher.c:350-359 | the planner serves exactly the syscalls that the greedy pass serves |
| NopPlan.PlanIsAssignment | src/patcher.c:350-359 | the plan is itself an assignment of distinct NOPs, each reached by a two-byte jump |
| NopPlan.PlanIsMaximum | src/patcher.c:350-359 | for every text, gaps or not: of all assignments of distinct NOPs, each reached by some two-byte jump in its syscall's place, none uses more NOPs than the plan |
| Patcher.AssignNopTrampoline | src/patcher.c:220-256 | the first NOP, from the next one on, whose third byte a short jump reaches, all skipped ones being out of reach and behind; none if the NOPs are used up or the next one is out of reach and ahead |
| Patcher.CheckSurroundingInstructions | src/patcher.c:263-330 | a neighbour is used exactly if it is of a kind that may move (a LEA; otherwise no endbr64, branch, call, syscall, long NOP or RIP-relative operand, and a return only behind the syscall) and, unless it is a RIP-relative LEA, no mark cuts it off |
| Windows.UsedIsTaken | src/patcher.c:263-330 | which neighbours the source's predicates accept, told by their kinds, operands and lengths |
| Windows.WindowIsRoom | src/patcher.c:416-448 | the window is as long as the syscall and the neighbours that join it, and fits exactly from five bytes on |
| Windows.CoveredKinds | src/patcher.c:263-330 | an instruction in a window, its syscall aside, is no endbr64, branch, call or syscall, is a return only behind the syscall, a NOP only below seven bytes, and refers to RIP only as a LEA |
| Windows.CoveredIff | src/patcher.c:263-330 | conversely, a neighbour of the other kinds that no mark cuts off is in the window, and nothing else is |
| Windows.WindowIsCovered | src/patcher.c:416-485 | an address is in the window exactly if the instruction it belongs to is covered |
| Patcher.ChooseWindow | src/patcher.c:397-485 | window, return address, and the abort exactly when the syscall and the neighbours that join have fewer than five bytes |
| Patcher.PlanPatch | src/patcher.c:357-488 | one syscall is planned as Plan says and its return address is marked; the abort exactly when it has no NOP and no room |
| Patcher.CreatePatchWrappers | src/patcher.c:347-492 | aborts exactly when some syscall has no NOP and, with the neighbours that join it, fewer than five bytes; otherwise all plans, marks and wrapper bytes are as specified and no other byte of the space changes |
| Plan.MarksGrow | src/patcher.c:488 | marks only grow, and each return address is marked before the next syscall is planned |
| Plan.PlannedIsPlan | src/patcher.c:347-492 | every planned patch fits the listing: its window covers whole instructions around its syscall, or its NOP is a listed one in range |
| Plan.NopsDistinct | src/patcher.c:236-241 | two patches never use the same NOP |
| Plan.PlanIsRun | src/patcher.c:347-492 | the plans of all syscalls form a run: ordered, with distinct NOPs and accumulating marks |
| Overlap.CoveredIsRelocatable | src/patcher.c:263-330 | a window holds one syscall, its own, and otherwise only relocatable instructions, never a call or a usable NOP |
| Overlap.WindowsMeet | src/patcher.c:306-330 | two windows meet only in a LEA between their syscalls |
| Overlap.PairDisjointIff | src/patcher.c:416-488 | two patches write disjoint bytes exactly when they share no LEA |
| Overlap.WritesDisjointIff | src/patcher.c:347-492 | all bytes written by all patches are pairwise disjoint exactly when no two patches share a LEA |
| Overlap.PlansDisjointIff | src/patcher.c:347-492 | the same in terms of listing, NOPs and known destinations before planning: no LEA between two syscalls that get no NOP |
| Overlap.EntriesSafeIff | src/patcher.c:306-330 | no known jump destination or return address is strictly inside a window, exactly when no LEA is shared or cut off by a destination |
| Overlap.DestinationsStayOutIff | src/patcher.c:306-330 | the same in terms of listing, NOPs and known destinations before planning |
| Overlap.SharedIsEntered | src/patcher.c:488 | if two patches share a LEA, the return address of the first is inside the window of the second |
| Overlap.AfterNopOrCallSafe | src/patcher.c:667-670 | the address after a usable NOP, or after a call, is never strictly inside a window |
| Counterexamples.SharedLea | src/patcher.c:306-330 | `syscall; lea; syscall`: both patches overwrite the LEA, and the return address of the first is inside the window of the second |
| Counterexamples.CutOffLea | src/patcher.c:306-330 | `lea; syscall; jmp` back to the syscall: no LEA is shared, and the known destination is inside the window |
| Patterns.Pattern1 | test/pattern1.in.S:45-49 | the window of the expected output |
| Patterns.PatternEndbr64 | test/pattern_endbr64.in.S:47-55 | the expected window starts behind the endbr64 |
| Patterns.EndbrAfter | src/patcher.c:263-330 | an endbr64 behind the syscall ends the window |
| Patterns.PatternRets | test/pattern_rets.in.S:46-58 | no room between two returns, as expected |
| Patterns.PatternJmps | test/pattern_jmps.in.S:46-59 | no room between two jumps, as expected |
| Patterns.PatternDoubleSyscall | test/pattern_double_syscall.in.S:46-51 | no room for either of two adjacent syscalls, as expected |
| Patterns.PatternLoop | test/pattern_loop.in.S:46-54 | the two expected windows: the second starts where the first returns and leaves the loop instruction alone |
| Patterns.PatternSymbolBoundary0 | test/pattern_symbol_boundary0.in.S:50-61 | the two expected windows, cut off at the start and the end of the symbol |
| Patterns.PatternNopPadding8 | test/pattern_nop_padding8.in.S:49-75 | the NOP serves the first syscall and stays out of the expected window of the second |
| Patterns.PatternNopPadding3And4 | test/pattern_nop_padding4.in.S:49-109 | a NOP reached by a jump of -128 is used, one that would need -131 is not |
| WrapperCode.RelocateInstruction | src/patcher.c:590-609 | a LEA becomes a `movabs`, any other instruction is copied |
| WrapperCode.EmitBefore | src/patcher.c:624-630 | the relocated predecessors, the farther one first |
| WrapperCode.EmitTemplate | src/patcher.c:632-636 | the copy loads, where the template has its two places, the address items + i * itemSize modulo 2^64 of the patch and that of intercept_wrapper; every other byte is the template's |
| WrapperCode.InstanceReadsBack | src/patcher.c:632-636 | the processor reads both addresses back from the copy, that of the patch and that of intercept_wrapper, and every other byte is the template's |
| WrapperCode.DescriptionsDiffer | src/patcher.c:633 | the addresses of two patch descriptions differ, and follow each other at the item size, as long as the array fits the address space |
| WrapperCode.CreateWrapper | src/patcher.c:618-643 | the wrapper's bytes are exactly predecessors, template, successor and jump back, and nothing else changes |
| Placement.FindPlace | src/intercept_desc.c:608-660 | finds a free place at or above mmap_min_addr, the lowest from the first guess on, and no lower page within reach of the whole text is free but for the one passed over; aborts only if none is free below the upper bound |
| Placement.TakenIff | src/intercept_desc.c:636-650 | a place is refused exactly if some byte of the table would be mapped already |
| Placement.BelowFirstGuess | src/intercept_desc.c:608-624 | the search starts above all pages out of reach, and passes over a page in reach exactly if it is INT32_MAX below the end of the text |
| Placement.TableInReach | src/intercept_desc.c:608-657 | every jump from the text to a slot of the table found has a 32-bit displacement |
| Placement.TableIsPageAligned | src/intercept_desc.c:611-623 | page-aligned maps give a page-aligned table |
| Activate.ApplyNop | src/patcher.c:728-753 | the three jumps of the NOP form, or the abort of the one that does not fit |
| Activate.AppliedDetermines | src/patcher.c:728-762 | nothing of the original survives among the bytes a patch writes: they are the same whatever was there |
| Activate.ApplyPatch | src/patcher.c:717-762 | the jump out, then the short jumps or the int3 filling; no byte outside the patch changes |
| Activate.ActivatePatches | src/patcher.c:676-767 | aborts exactly when a check of some patch fails; otherwise all patches and table slots are in place and every other byte is unchanged |
| Pipeline.ListingIsReadable | src/patcher.c:605-607 | for any listing, the instructions to copy lie inside the text |
| Pipeline.PlanIsWellPlaced | src/patcher.c:695-697 | for any listing, a planned patch writes only inside the text and its parts do not collide |
| Pipeline.ShortJumpsFit | src/patcher.c:650-660 | for any listing, the short jumps of a planned patch never abort, because the NOP was in range |
| Pipeline.ChecksPassForPlan | src/patcher.c:695-726 | with the table in reach and large enough no check of activation fails |
| Pipeline.WrappersAreApart | src/patcher.c:618-643 | the wrappers of two patches do not overlap |
| Pipeline.StagesInstall | src/intercept.c:496-504 | the stages leave behind all that the simulation rests on |
| InterceptObject.FindSyscalls | src/intercept_desc.c:686-718 | an address is marked exactly if it is in the text and either known from the tables or referred to by a listed instruction; patches and NOPs are those of the listing |
| InterceptObject.SpaceBound | src/patcher.c:618-643 | a bound on the space that n wrappers take |
| InterceptObject.PatchText | src/intercept.c:496-504 | for any listing, wrappers, table and text as specified, and the exact condition of an abort |
| InterceptObject.ActivationIff | src/patcher.c:157-172 | once windows fit and the table is in reach, activation aborts exactly when the table is too small |
| InterceptObject.PatchObject | src/intercept.c:496-504 | for any text, gaps or not: aborts exactly when there is no place for the table, a window is too small or the table is too small; otherwise the stages are done |
| InterceptObject.StartFromListing | src/intercept_desc.c:686-718 | a sweep without gaps gives an input from a gapless listing |
| InterceptObject.EntriesStayOut | src/intercept_desc.c:707-713 | with no LEA shared or cut off, no address known from the tables, nor one that an instruction refers to, is strictly inside a window, if an instruction starts there |
| InterceptObject.PatchedObjectSimulates | src/intercept.c:475-505 | an object patched without abort, with no LEA shared, runs as before, for whatever stands in for the template |
| InterceptObject.PatchedObjectIsSimulated | src/intercept.c:475-505 | and it does nothing that the original does not do |
| Simulation.InteriorIsWritten | src/patcher.c:728-762 | the comparison of the two programs leaves out no address of the text but those between two bytes that one patch overwrites |
| SimulationSteps.EnterWrapper | src/patcher.c:708-726 | the bytes at the jump out, and those in the table, lead to exactly this patch's wrapper, with the state untouched |
| SimulationSteps.LeaStep | src/patcher.c:594-603 | the `movabs` in the wrapper does what the LEA did in the text |
| SimulationSteps.CopyStep | src/patcher.c:604-608 | a copied instruction does in the wrapper what it did in the text |
| SimulationSteps.RelocatedStep | src/patcher.c:590-609 | any relocated instruction has the effect of the original |
| SimulationRun.TemplateAddresses | src/patcher.c:632-636 | in the installed code the template of patch i holds the address of patch i and that of intercept_wrapper |
| SimulationRun.WalkWindow | src/patcher.c:618-643 | from any instruction of a window to its end: wrapper and original meet at the return address, at the caller if the successor is a return, or where rt_sigreturn resumes |
| SimulationRun.NopBlock | src/patcher.c:728-746 | a syscall patched through a NOP: short jump, wrapper and way back amount to the syscall |
| SimulationRun.NopInPlaceBlock | src/patcher.c:747-752 | executing the overwritten NOP still skips to the next instruction |
| SimulationRun.WindowBlock | src/patcher.c:753-761 | a window as a whole is matched |
| SimulationRun.PatchedRunSimulates | src/patcher.c:347-767 | every well-behaved run is matched by the patched program: same observable addresses in the same order, in states that agree at each of them |
| SimulationRun.PatchedRunMakesTheSameCalls | src/patcher.c:347-767 | at every observable place both programs have made the same calls to the kernel in the same order |
| SimulationRun.PatchedRunIsSimulated | src/patcher.c:347-767 | the converse: however many steps the patched program has taken, the places it has visited are those of some run of the original, in states that agree |
| SimulationRun.KnownRunIsGood | src/patcher.c:306-330 | with no LEA in the way, a run that jumps only to destinations known before planning, or back after calls, is well behaved as far as its jumps go |
| Hooking.SyscallNoIntercept | src/util.S:56-65 | the register shuffle turns the C arguments into the kernel's number and six arguments |
| Hooking.InterceptRoutine | src/intercept.c:593-703 | by the slots of the context: code 2 exactly for forwarded calls 56 with a nonzero RSI slot and 435 with a nonzero word 40 above the RDI slot, code 0 exactly for 58 and 15, else the magic or the hook's answer or one call to the kernel, with exactly the six arguments in the context; no call after which more than RAX may differ is made here |
| Hooking.InterceptRoutinePostClone | src/intercept.c:710-722 | the hook for the parent or the child runs, and the RAX slot as it is then is returned with code 1 |
| WrapperFrame.StoreSlotsHold | src/intercept_wrapper.S:94-120 | a run of stores fills its slots and changes nothing else |
| WrapperFrame.SavedHolds | src/intercept_wrapper.S:90-129 | all general registers but RCX and R11, the original RSP, the patch description and the address of the syscall are in their slots, and only the slots change |
| WrapperFrame.ContextIsFrame | src/intercept.c:593-604 | the fields of the saved registers are their slots, and the call that the C side reads from them is the original one |
| WrapperFrame.SavedIsContext | src/intercept.c:114-133 | all sixteen fields of the context hold what they should: registers, original RSP, patch description and the address in its first word |
| WrapperFrame.CalledAligned | src/intercept_wrapper.S:77-90 | from every stack pointer C is called with RSP a multiple of 16, below the red zone |
| WrapperFrame.RestoredHolds | src/intercept_wrapper.S:183-231 | all of them come back; RAX and R11 carry the answer |
| WrapperFrame.SetUpHolds | src/intercept_template.S:68-78 | below the red zone, aligned, with the original RSP and the patch description where intercept_wrapper looks for them |
| WrapperProtocol.DecideThroughFrame | src/intercept.c:636-703 | seen through the frame the C side decides as on the program's own memory, and leaves the frame alone |
| WrapperProtocol.CSideHolds | src/intercept_wrapper.S:164-173 | called with an aligned stack, C returns with the frame intact and the answer for the saved call, and after a clone RAX is still what clone returned |
| WrapperProtocol.WrapperHolds | src/intercept_wrapper.S:90-231 | RCX chooses the routine; registers are kept, the answer is in RAX and R11 |
| WrapperProtocol.PassHolds | src/intercept_template.S:68-79 | one pass restores RSP and all general registers but RAX, RCX and R11, and writes nothing at or above the red zone |
| WrapperProtocol.DecideCodes | src/intercept_template.S:81-112 | R11 is 0, 1 or 2, and what is left to do for each value |
| WrapperProtocol.StackMovesOutsideC | src/intercept.c:661-695 | a call after which the stack pointer differs, or the thread resumes elsewhere, is not made from C |
| WrapperProtocol.SpecialNear | src/intercept_template.S:97-112 | a call made in the original context after a pass has the effect it would have had without the pass, and rt_sigreturn resumes at the same place with the same registers |
| WrapperProtocol.NeverHalts | src/intercept_template.S:81-112 | for every client, compiled code and state: never the `hlt`, C entered once or twice |
| WrapperProtocol.TemplateHolds | src/intercept_template.S:65-112 | from every polite state the template has the effect of the hooked call and continues where it does |
| WrapperProtocol.KernelReachedOnce | src/intercept_template.S:65-112 | through the template the kernel is reached exactly once, with the original call, if there is no magic answer and the hook forwards it or its number is 15 or 58, and else not at all; RAX is the kernel's, the hook's or the handler's result |
| WrapperProtocol.RegistersComeBack | src/intercept_template.S:65-112 | through the template all general registers but RAX, RCX and R11 come back, unless the kernel changes them in a special call |
| WrapperThread.Thread.StoreRegisters | src/intercept_wrapper.S:94-120 | the stores for a run of slots, as specified |
| WrapperThread.Thread.SaveRegisters | src/intercept_wrapper.S:90-129 | registers and memory as specified: the frame holds the registers, and nothing else changes |
| WrapperThread.Thread.RestoreRegisters | src/intercept_wrapper.S:183-231 | the loads, as specified |
| WrapperThread.Thread.CallRoutine | src/intercept_wrapper.S:164-173 | the call of the C routine that RCX chooses, as specified |
| WrapperThread.Thread.InterceptWrapper | src/intercept_wrapper.S:90-231 | intercept_wrapper as specified, C entered once, with RSP a multiple of 16 |
| WrapperThread.Thread.SetUpStack | src/intercept_template.S:68-78 | the template up to the call, as specified: aligned, below the red zone, with the original RSP and the patch description in place |
| WrapperThread.Thread.RunPass | src/intercept_template.S:68-79 | one pass, as specified, with an aligned call of C below the red zone |
| WrapperThread.Thread.RunTemplate | src/intercept_template.S:65-112 | the template as specified; never halts, at most two passes; from polite states the hooked call's effect, trace and result |
| Interception.ForwardingIsKernelStep | src/intercept.c:636-703 | for a client that takes no part, a hooked call is the call itself |
| Reporting.ContextNamesDescription | src/intercept_wrapper.S:125-129 | when C starts, its context holds the address of the patch description and the description's first word |
| Reporting.ReportsOwnSyscall | src/patcher.c:633 | C entered through the template installed for patch i finds the address of that patch's syscall in the context |
| Reporting.TemplatesDiffer | src/patcher.c:633 | the templates installed for two patches hold different addresses |
| Interception.TemplateForwards | src/intercept_template.S:65-112 | the template, when the address it calls is that of intercept_wrapper, does what the simulation asks of it |
| Interception.InterceptedObjectSimulates | src/intercept.c:475-505 | an object patched without abort, from a gapless listing with no LEA shared, runs as before with the modelled template at its syscalls; patch and wrapper are read from its bytes |
| Interception.InterceptedObjectIsSimulated | src/intercept.c:475-505 | and does nothing else |
| Interception.DoneRunsAsBefore | src/intercept.c:475-505 | both, for all processors, kernels, clients that forward, compiled code, starting states and run lengths |
| Interception.Intercept | src/intercept.c:475-505 | one object, from its bytes to its runs: the exact condition of an abort, and otherwise, without gaps and shared LEAs, it runs as before; if no LEA is cut off either, no window can be entered at a destination named by the tables or by an instruction |
| Example.ExampleRuns | src/patcher.c:347-767 | a small object, kernel and run that meet all the demands of the theorem |
| Interception.FileCallsArePolite | src/intercept_template.S:65-112 | calls that read a path and fill a buffer outside the wrapper's stack zone are polite |
| LogBuffer.InvStep | examples/syscall_logger.c:62-91 | every atomic step of every thread keeps the invariant |
| LogBuffer.ReservationsTile | examples/syscall_logger.c:68-82 | a byte below the offset is in place with its value, or owed by exactly one thread |
| LogBuffer.QuietBufferIsLog | examples/syscall_logger.c:62-91 | when no thread copies, the buffer is the appended data in the order of the exchanges |
| LogBuffer.FlushNeverHappens | examples/syscall_logger.c:84-90 | a waiting thread waits forever: no run writes the file |
| LogBuffer.LogIsFrozen | examples/syscall_logger.c:69-72 | once the threshold is reached no append succeeds any more |
| LogBuffer.ShortAppendsStayInside | examples/syscall_logger.c:60-78 | appends of at most 0x1001 bytes never leave the buffer |
| LogBuffer.StaysInsideIff | examples/syscall_logger.c:60-78 | appends of at most 0x1001 bytes are exactly those that stay inside the 0x2000000 bytes of the buffer in every run |
| LogNumbers.DigitsParse | src/intercept_log.c:88-94 | the digits read back as the number, in every base and for every padding |
| LogNumbers.DigitsLength | src/intercept_log.c:85-94 | the number of digits is the least that holds the number and the padding |
| LogNumbers.FitsIff | src/intercept_log.c:79-94 | of the bases admitted, all 64-bit numbers fit the scratch area exactly from base 5 on |
| LogNumbers.FillDigits | src/intercept_log.c:83-94 | the digit loop fills the scratch area from its end and never passes its start |
| LogNumbers.PrintNumber | src/intercept_log.c:75-100 | prints exactly the digits, for every number that fits; they read back as the number, and are the fewest that hold it and a width of at most 30 |
| LogNumbers.SignedRoundTrip | src/intercept_log.c:131-144 | a signed decimal reads back |
| LogNumbers.PrintSignedDec | src/intercept_log.c:131-144 | prints the sign and the digits for every 64-bit number, the least one included |
| LogEscape.DecodeByte | src/intercept_log.c:303-335 | each escape decodes to its byte, whatever follows |
| LogEscape.DecodeEscape | src/intercept_log.c:299-341 | decoding undoes escaping |
| LogEscape.TextDecodes | src/intercept_log.c:290-350 | the text printed decodes to the bytes taken, and to all of them when nothing is truncated |
| LogEscape.EscapedIsPrintable | src/intercept_log.c:303-335 | a printable byte other than the quote and the backslash stands for itself, these two follow a backslash, and of the other bytes eight become a letter or 0 behind a backslash and the rest two hexadecimal digits |
| LogEscape.TextIsPrintable | src/intercept_log.c:290-350 | whatever the bytes, the text is printable ASCII |
| LogEscape.TruncatedIff | src/intercept_log.c:343-344 | the text is truncated exactly when some byte would start at or after dst_end |
| LogEscape.TextBound | src/intercept_log.c:293-349 | the returned pointer is at most dst + dst_size + 2 for a dst_size above 3, and at most dst + 5 below |
| LogEscape.StaysWithinIff | src/intercept_log.c:285-349 | when the text and its NUL stay within dst_size, in terms of the input |
| LogEscape.WritesPastDstSize | src/intercept_log.c:285-349 | a concrete input for which they do not |
| LogEscape.PrintCstr | src/intercept_log.c:59-68 | the string and its NUL, and nothing else |
| LogEscape.PrintByte | src/intercept_log.c:303-335 | one round of the loop prints the escape of one byte |
| LogEscape.PrintBytes | src/intercept_log.c:298-341 | the loop prints the escapes of the bytes taken |
| LogEscape.XprintEscape | src/intercept_log.c:289-350 | prints the specified text, "(null)" for a null pointer |
| LogFlags.LeftMeaning | src/intercept_log.c:218-233 | the residue is what no entry mentions |
| LogFlags.NothingLost | src/intercept_log.c:218-233 | every set bit is in a printed entry or in the residue |
| LogFlags.ConservedIff | src/intercept_log.c:213-239 | names and residue say exactly which flags were set, for all flags, exactly when every entry is a single bit or covered by earlier entries |
| LogFlags.NamedIff | src/intercept_log.c:222-225 | in a table of distinct single bits a name is printed exactly when its flag is set |
| LogFlags.FlagTextIsBarred | src/intercept_log.c:190-239 | in a fresh list: the names and the residue with bars between them, and 0 only if there is neither |
| LogFlags.SyncBitIsMisnamed | src/intercept_log.c:428-450 | the whole table of open flags is not of that kind: one bit alone is printed as O_RSYNC |
| LogFlags.PrintFlag | src/intercept_log.c:190-197 | appends one item to the list, with a separator unless it is empty |
| LogFlags.PrintNames | src/intercept_log.c:218-227 | the loop prints the names of exactly the entries found |
| LogFlags.PrintFlagSet | src/intercept_log.c:213-239 | the names, the residue in hexadecimal, or 0 if there is nothing to print |
| Fsp.FullIff | examples/syscall_fsp.c:1438-1459 | everything asked for is transferred exactly when it is there and no request is cut short |
| Fsp.TotalIsSum | examples/syscall_fsp.c:1438-1459 | the total is the sum of the answers, each to the next chunk of the request, up to the first failure or the end of the data |
| Fsp.ReadChunks | examples/syscall_fsp.c:1438-1459 | the bytes read are the next ones of the file, in order, and nothing else is touched |
| Fsp.WriteChunks | examples/syscall_fsp.c:1510-1531 | the file grows by exactly the first `total` bytes of the caller's buffer |
| FspGetdents.Getdents | examples/syscall_fsp.c:1087-1120 | the next entries of the directory, field by field, with offsets counting on: as many as are left, as nine, or as fit the buffer |
| FspGetdents.InsideIff | examples/syscall_fsp.c:1093-1114 | a call stays inside the caller's buffer exactly when there is room for one entry or none is left |
| FspGetdents.TooSmallOverruns | examples/syscall_fsp.c:1107-1112 | a concrete call that does not |
| FspGetdents.StreamIsDirectory | examples/syscall_fsp.c:1087-1120 | repeated calls return the directory's stream: nothing lost, repeated or renumbered |
| FspGetdents.EnoughCalls | examples/syscall_fsp.c:1094-1116 | every call before the end makes progress |

## Left out

- Capstone, ELF files, `/proc/self/maps`, `mmap` and `mprotect`, environment variables: foreign calls and I/O; their results are inputs.
- The list of branch instructions in `src/disasm_wrapper.c`: statements are relative to the kinds the decoder reports.
- Bounds of the wrapper space: the source checks fullness once per object, so room for the wrappers is a precondition of `PatchText` and `PatchObject`.
- Several objects: one object is modelled; the others' text and wrappers are `Elsewhere` for it.
- The template is one step of the patched program, taken wherever its bytes are intact; its instructions, and those of `intercept_wrapper`, are modelled one by one but not decoded from bytes.
- Calls that end the thread or block forever, and the delivery of signals (returning from one is modelled).
- SIMD registers and the flags in the wrapper: only general registers are covered, as the source saves eight SIMD registers.
- PatchArray.Items: the crawl appends to a sequence; that the growing array holds that sequence is stated here, not threaded through `Crawl.InterceptDesc`.
- Logging of syscalls inside `intercept_routine`, and the magic syscall handler's own work: an input.
- The call frame information of the assembly files.
- LogBuffer.Step: `memcpy` is one step per byte, a negative length is not modelled, and memory is sequentially consistent.
- LogEscape.XprintEscape: `isprint` is that of the C locale; the dots, the closing quote and the NUL are written in one go.
- LogNumbers.PrintNumber: numbers that do not fit the scratch area are excluded by a precondition, which `FitsIff` shows to be void for bases 8, 10 and 16.
- LogFlags.PrintFlagSet: the buffer must hold the text, as the source has no bound.
- FspGetdents.Getdents: the counter per descriptor does not wrap at 2^32, and names are NUL-terminated within 256 bytes.
- Fsp.ReadChunks: `fs_malloc` does not fail, as the source asserts.
- Tables of syscall formats, error names and flag names; `cmdline_match`, library names, the shim's descriptor tables and forwarding calls, the other examples: data, thin wrappers or easy.
