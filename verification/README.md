# Verified models of the patching toolchain and its patched subjects

A Dafny model of the parts of this repository whose correctness does not show in one function body: the
bad-block elimination of the binary instrumentation plugin, the number theory and the sieve of the coreutils
prime-list generator, five pieces of the patched binutils x86-64 ELF backend and of objdump, the shadow-memory
queries, the DWARF expression evaluator, and the commands that put a constraint into a source line.
`dafny verify dfyconfig.toml` checks everything.

Code that updates fields, arrays or lists in place is modelled by methods on classes and arrays; each is tied to a
specification, and the results below are about those specifications.

| files | what they model |
|---|---|
| `Coverage`, `Runs`, `BadBlocks`, `PathCheck`, `InstrumentPoints` | which basic blocks keep their coverage instrumentation, and what a coverage trace still tells |
| `WideUint`, `Binvert`, `OddPrimes`, `Sieve`, `NextPrime` | inverses modulo 2^W, divisibility by multiply and compare, the sieve with its 32-bit squares, the first omitted prime |
| `TlsAccess`, `GotLayout`, `GotSection`, `GotAllocator`, `GotAccounts`, `GotPass`, `DynRelocs` | TLS access types, GOT and PLT allocation up to the whole pass, merging of relocation lists |
| `ConvertLoad`, `LoadMeaning` | rewriting of GOT loads and branches, and what the instructions do before and after |
| `FindSymbol` | the nearest symbol for an address |
| `Shadow`, `ShadowObjects` | size and base queries over shadow memory, redzone adjustment |
| `DwarfOps`, `DwarfEval`, `DwarfMeaning` | the array-stack evaluator, its meaning on lists, and the PLT unwind expression |
| `DwarfStandard`, `DwarfArithmetic`, `DwarfAgreement` | DWARF 5 with its own arithmetic, and exactly when the evaluator agrees with it |
| `SedCommand`, `ConditionPatch`, `PatchFile` | the sed command as shell and sed read it, where a constraint is put into a condition, and what the commands do to the file |

## Where the code falls short of its promise

Each is stated with the exact condition under which the promise holds.

- **Coverage.** Along known successors of the control-flow graph, which a call does not add to, the trace always tells runs
  apart. With returns and indirect jumps it does if and
  only if no block is entered both through an unknown target and by a known successor, from different blocks reached
  silently from one instrumented block (`Runs.TraceTellsRunIff`): the elimination keeps all unknown targets apart from the
  known ones, so it sees no conflict there (`Runs.MixedEntryWitness`).
- **Sieve.** The square `p*p` is a 32-bit product. The list of odd primes is right if and only if the limit is below
  203897: 92683 squared is 203897 modulo 2^32, and 203897 is prime (`Sieve.ListPrimes`). Below that bound squares do wrap
  from 65537 on, without harm.
- **Jump slots.** A jump slot for an undefined weak symbol resolved to zero does not raise `reloc_count`. The .got.plt
  layout is free of overlaps if and only if no such slot is allocated after a TLS descriptor (`GotLayout.DisjointIffNoLateZero`).
  What earlier phases do to symbols rules that out, except in a position-independent executable with a TLS descriptor
  relocation against a function, which the transition to initial exec skips (`GotPass.SizeDynamicSections`); two such
  symbols share bytes 24 to 31 (`GotPass.OverlappingLink`).
- **Load conversion.** Meaning is kept if and only if the load was not turned into an immediate form with REX.B set and REX.R
  clear: REX.B means nothing in the GOT form, and is not cleared (`LoadMeaning.LoadConversionMeans`).
- **Redzones.** Growth past the last granule by exactly 8, growth by more that meets the next object, and shrinks over
  several granules that end in the first one, change the size by something else (`ShadowObjects.AdjustmentIsExact`).
  Between two redzone granules, a shrink leaves what lies below alone if and only if the object has more than one granule,
  or the shrink is no larger than it, or the walk meets redzone three or four granules below in time, or it happens to
  write what the third granule holds (`ShadowObjects.StaysInObject`, `ShadowObjects.ShrinkKeepsBelow`).
- **DWARF stack.** `over` and `pick` copy one entry too shallow after checking for the right one, `pick 0` copies a stale
  cell, and `rot` turns the other way. Each step is the standard's if and only if the words concerned happen to be equal,
  or both fail (`DwarfAgreement.StepAgrees`).
- **DWARF frame address.** `call_frame_cfa` ends the evaluation with the address of a holder of the frame address, where the
  standard pushes it and goes on. With the holder read as the location it holds, the outcome is the standard's for
  everything that may follow if and only if the operation is the last one and there is room, or the frame address itself
  fails (`DwarfAgreement.ReturnAgreement`).
- **DWARF arithmetic.** `mod` is signed, where the standard has unsigned remainders; shifts by 64 or more and the least
  number divided by -1 are undefined, where the standard fills with zero or sign bits and wraps; and `deref_size` refuses
  3, 5, 6 and 7 bytes. All other arithmetic agrees on all operands, and for these the exact operands are given
  (`DwarfArithmetic.BinaryAgrees`, `DwarfArithmetic.SameRemainder`, `DwarfArithmetic.UnaryAgrees`).
- **The `verify` pass.** After optimization it reports an error if and only if a block that names the same successor node
  twice was not optimized before, or was reached through optimized blocks from one that was not; this is harmless for
  the trace (`PathCheck.OptimizeAndVerify`).
- **Conditions.** A constraint at the end of a condition over several lines leaves one closing bracket too many
  (`ConditionPatch.InsertionIsExact`), and a closing bracket before the first opening one misleads the search for the end
  (`ConditionPatch.ClosingIsFound`). When that search fails, the last line of the file, with half of the insertion, takes
  the place of the line before the fix line (`PatchFile.FailedSearchDamages`).
- **The sed command.** It is refused if and only if the stripped content has a newline or the line number is 0
  (`SedCommand.CommandReplacesLine`).

## Model

| member | source | states |
|---|---|---|
| BadBlocks.OptimizePaths | lib/e9AFLPlugin.cpp:327-359 | terminates on every graph; the place entered is recorded, everything recorded stays explored from instrumented blocks on, flags are only cleared, and each cleared block had to be and has single entries |
| BadBlocks.OptimizeBlock | lib/e9AFLPlugin.cpp:360-371 | terminates, because a nested call has fewer optimized blocks; afterwards every node reached from the block through uninstrumented blocks is entered at one place, and the same holds for every block cleared on the way |
| BadBlocks.OptimizeAll | lib/e9AFLPlugin.cpp:482-485 | in any order of blocks: the trace determines the run, flags are only cleared, each cleared block was in conflict under some flags between the final and the initial ones and was reached through optimized blocks from one that was not, and a conflict-free graph is left alone |
| BadBlocks.RecordProvesSingleEntries | lib/e9AFLPlugin.cpp:347-370 | a finished record of first entries proves that all silent walks from the starting block enter each node at one place |
| BadBlocks.SecondEntryIsConflict | lib/e9AFLPlugin.cpp:330-346 | the block chosen at a second entry was, under the flags with which the exploration began, optimized and shared an entered node with another place on silent walks |
| PathCheck.Verify | lib/e9AFLPlugin.cpp:376-413 | the check passes if and only if no instrumented block has a node entered twice on silent walks, repeated successors included |
| PathCheck.OptimizeAndVerify | lib/e9AFLPlugin.cpp:376-413 | after the pass the check reports an error exactly when a block that repeats a successor was unoptimized before it, or was then reached through optimized blocks from an unoptimized one |
| PathCheck.DoubleEntryIffRepeats | lib/e9AFLPlugin.cpp:376-396 | under single entries, a node entered twice is a repeated successor of the starting block, and conversely |
| Coverage.UniqueEntryIffUniqueWalks | lib/e9AFLPlugin.cpp:327-371 | each reached node has a single predecessor if and only if there is at most one uninstrumented walk to each node |
| Coverage.SilentWalksDoNotLoop | lib/e9AFLPlugin.cpp:327-371 | no uninstrumented block is passed twice without an instrumented one in between |
| Coverage.SingleEntriesSurvive | lib/e9AFLPlugin.cpp:339-345 | clearing further flags keeps what was established for other blocks |
| Coverage.SameTraceMeansSameWalk | lib/e9AFLPlugin.cpp:482-492 | two walks along known successors, from the same instrumented block to instrumented blocks, with the same sequence of instrumented blocks are equal, block for block |
| Runs.TraceTellsRunIff | lib/e9AFLPlugin.cpp:326-371 | for runs that also pass unknown targets, equal traces mean equal runs if and only if no block is entered both through an unknown target and by a known successor, from different blocks reached silently from one instrumented block |
| Runs.MixedEntryHides | lib/e9AFLPlugin.cpp:347-358 | every such entry gives two different runs with the same trace |
| Runs.MixedEntryWitness | lib/e9AFLPlugin.cpp:327-371 | a conflict-free graph of four blocks on which two runs show the same trace |
| InstrumentPoints.SelectPoint | lib/e9AFLPlugin.cpp:426-471 | the chosen instruction is the first of the block with room for a jump, or else the first of the largest |
| InstrumentPoints.PointsDiffer | lib/e9AFLPlugin.cpp:426-471 | different blocks are instrumented at different addresses |
| InstrumentPoints.CalcInstrumentPoints | lib/e9AFLPlugin.cpp:426-492 | the addresses are those of the unoptimized blocks, and these are known exactly: under the default option every bad direct target with code is optimized except those in conflict under some flags between the final and the initial ones and reached from an unoptimized block, none without conflicts; under "always" all are, and under "never" none; the default trace determines walks, and when every block has code the instrumentation addresses tell runs apart, with unknown targets under the exact condition |
| InstrumentPoints.ObservationIsFaithful | lib/e9AFLPlugin.cpp:482-492 | with points chosen from the code, equal observed addresses mean equal runs: always along known successors, and with unknown targets if and only if no block is entered both ways |
| Binvert.SeedInverts | data/coreutils/gnubug_19784/make-prime-list.pacfix.c:60 | the seed nibble is an inverse modulo 16 for every odd number |
| Binvert.NewtonDoubles | data/coreutils/gnubug_19784/make-prime-list.pacfix.c:61-67 | one wrapping step doubles the number of correct low bits, up to the width |
| Binvert.FixedPointIsInverse | data/coreutils/gnubug_19784/make-prime-list.pacfix.c:64-65 | any odd fixed point of the step is an inverse modulo 2^W, so leaving the loop there is right |
| Binvert.Binvert | data/coreutils/gnubug_19784/make-prime-list.pacfix.c:57-68 | totally correct for every odd number and every width of at least 32 bits: a*x is 1 modulo 2^W |
| Binvert.ProcessPrime | data/coreutils/gnubug_19784/make-prime-list.pacfix.c:70-77 | the entry holds the inverse and the largest quotient |
| Binvert.TestIsDivisibility | data/coreutils/gnubug_19784/make-prime-list.pacfix.c:149 | the wrapped product is at most the limit if and only if p divides n, for every n below 2^W |
| Sieve.HitExact | data/coreutils/gnubug_19784/make-prime-list.pacfix.c:213-214 | for p below 65536 a cell is crossed out if and only if its number is a multiple of p from p*p on |
| Sieve.HitAfterWrap | data/coreutils/gnubug_19784/make-prime-list.pacfix.c:213-214 | for larger p, whose square wraps, the only number wrongly reached below 203897 is 131073, which is composite |
| Sieve.CulpritHitsFirstWrong | data/coreutils/gnubug_19784/make-prime-list.pacfix.c:213-214 | the prime 92683 crosses out 203897 |
| Sieve.RoundStep | data/coreutils/gnubug_19784/make-prime-list.pacfix.c:206-218 | one round of the outer loop keeps: the list is right so far, and cells ahead tell whether a listed prime cuts them |
| Sieve.ListPrimes | data/coreutils/gnubug_19784/make-prime-list.pacfix.c:194-218 | for every 32-bit limit from 3 on and every value behind the sieve: the list is exactly the odd primes up to the limit, increasing, if and only if the limit is below 203897 |
| NextPrime.IsPrimeByTable | data/coreutils/gnubug_19784/make-prime-list.pacfix.c:145-155 | the inner loop stops inside the table and decides primality of every odd candidate between the last listed prime and its square |
| NextPrime.PrimeBeforeSquare | data/coreutils/gnubug_19784/make-prime-list.pacfix.c:142-156 | such a prime always exists, with no assumption on prime gaps |
| NextPrime.FirstOmittedPrime | data/coreutils/gnubug_19784/make-prime-list.pacfix.c:141-158 | the search ends at the smallest odd prime above the limit |
| NextPrime.MakePrimeList | data/coreutils/gnubug_19784/make-prime-list.pacfix.c:172-220 | sieve and search together: nothing for limits below 3, otherwise the table and the first prime after it |
| TlsAccess.LinkSymbol.Record | data/binutils/cve_2017_14745/elf64-x86-64.pacfix.c:2568-2649 | one relocation updates the access type by the join, or fails and leaves it alone |
| TlsAccess.LinkSymbol.RecordAll | data/binutils/cve_2017_14745/elf64-x86-64.pacfix.c:2429-2649 | the relocations of a section, one after the other, give their join, or the error |
| TlsAccess.ResultIsMeaning | data/binutils/cve_2017_14745/elf64-x86-64.pacfix.c:2614-2640 | the recorded type, or the error, is given by the set of access models used |
| TlsAccess.RecordedByKinds | data/binutils/cve_2017_14745/elf64-x86-64.pacfix.c:2571-2648 | by which kinds of relocation occur: an error if and only if a normal one occurs with a thread-local one; otherwise initial exec if GOTTPOFF occurs, and if not, general dynamic if and only if TLSGD occurs and a descriptor if and only if a descriptor relocation does |
| TlsAccess.OrderDoesNotMatter | data/binutils/cve_2017_14745/elf64-x86-64.pacfix.c:2614-2648 | every permutation of the relocations gives the same type or the same error |
| TlsAccess.SectionsAddUp | data/binutils/cve_2017_14745/elf64-x86-64.pacfix.c:2614-2648 | recording section after section equals recording all at once |
| TlsAccess.NoDescriptorsInExecutables | data/binutils/cve_2017_14745/elf64-x86-64.pacfix.c:1794-1813 | after the transition no symbol of an executable but a function has a TLS descriptor |
| GotLayout.AllocationsFit | data/binutils/cve_2017_14745/elf64-x86-64.pacfix.c:5425-5430 | every slot and descriptor ends inside .got.plt and after its header, in every order: the assertion holds |
| GotLayout.DisjointIffNoLateZero | data/binutils/cve_2017_14745/elf64-x86-64.pacfix.c:3327-3337 | slots and descriptors are pairwise disjoint if and only if no uncounted slot follows a descriptor |
| GotLayout.FilledExactly | data/binutils/cve_2017_14745/elf64-x86-64.pacfix.c:3879-3891 | then every entry behind the header belongs to an allocation |
| GotAllocator.LinkTable.AllocatePlt | data/binutils/cve_2017_14745/elf64-x86-64.pacfix.c:3183-3352 | when a symbol gets a jump slot or a .plt.got entry, whether it is counted, which offsets it gets in .plt, the second PLT and .plt.got, how these grow, and when it is made dynamic |
| GotAllocator.LinkTable.AllocateGot | data/binutils/cve_2017_14745/elf64-x86-64.pacfix.c:3354-3422 | when a symbol gets a TLS descriptor or GOT entries, which offsets are noted, by how much .got grows for each access type, and how many relocations .rela.got gets for it |
| GotAllocator.LinkTable.AllocateLocalGot | data/binutils/cve_2017_14745/elf64-x86-64.pacfix.c:3817-3855 | the same for local symbols |
| GotAllocator.LinkTable.ReserveTlsdescPlt | data/binutils/cve_2017_14745/elf64-x86-64.pacfix.c:3896-3911 | the GOT and PLT entries for lazy descriptors: there if and only if some symbol has a descriptor and binding may be lazy, and behind everything else |
| GotSection.PackedIsTiled | data/binutils/cve_2017_14745/elf64-x86-64.pacfix.c:3393-3396 | entries handed out at the end of a section are pairwise apart, inside it, and leave no byte free |
| GotAllocator.DescIsWhereComputed | data/binutils/cve_2017_14745/elf64-x86-64.pacfix.c:5422-5430 | offset noted at allocation plus final jump table is the descriptor's position, inside .got.plt |
| GotPass.AllocateGlobal | data/binutils/cve_2017_14745/elf64-x86-64.pacfix.c:3161-3422 | what one symbol adds to every section, which offsets it stores, and exactly when it has entries in .got |
| GotAccounts.GlobalsKept | data/binutils/cve_2017_14745/elf64-x86-64.pacfix.c:3161-3422 | over any run of symbols every allocation keeps its owner and every stored offset its allocation |
| GotAccounts.PassIsWellLaidOut | data/binutils/cve_2017_14745/elf64-x86-64.pacfix.c:3879-3891 | the stored offsets put all slots and descriptors inside .got.plt; they are pairwise apart if and only if no uncounted slot follows a descriptor, and then fill it |
| GotAccounts.PassTiled | data/binutils/cve_2017_14745/elf64-x86-64.pacfix.c:3817-3911 | after any run of the pass every byte of .got belongs to exactly one entry, of a local symbol, of the local-dynamic accesses, of a global symbol (16 bytes for general dynamic, 8 otherwise) or of the lazy descriptors; and every byte of .plt.got and of the second PLT to exactly one symbol |
| GotPass.SizeDynamicSections | data/binutils/cve_2017_14745/elf64-x86-64.pacfix.c:3817-3911 | after a pass over local and global symbols all offsets stored in them are well laid out in .got.plt, .got, .plt.got and the second PLT; no uncounted slot follows a descriptor unless a position-independent executable has a TLS descriptor against a function |
| GotPass.OverlappingLink | data/binutils/cve_2017_14745/elf64-x86-64.pacfix.c:1794-1798 | two symbols as earlier phases let them through whose descriptor and jump slot both begin at byte 24 |
| DynRelocs.CopyIndirect | data/binutils/cve_2017_14745/elf64-x86-64.pacfix.c:1427-1459 | the relinked list of the direct symbol shows the merged entries, and the indirect symbol's list is empty |
| DynRelocs.MergeConserves | data/binutils/cve_2017_14745/elf64-x86-64.pacfix.c:1437-1454 | count and pc_count over both symbols are conserved in every section |
| DynRelocs.MergeKeepsOnePerSection | data/binutils/cve_2017_14745/elf64-x86-64.pacfix.c:1437-1454 | one node per section in both lists gives one per section in the result, with all sections of both |
| ConvertLoad.ConvertLoadReloc | data/binutils/cve_2017_14745/elf64-x86-64.pacfix.c:1976-2374 | the section bytes and the relocation entry become those of the conversion; without conversion they stay |
| LoadMeaning.LoadIsConvertedIff | data/binutils/cve_2017_14745/elf64-x86-64.pacfix.c:2004-2129 | exactly which loads become an immediate, which become lea and which stay, and what their bytes are then; what is converted has an address of its own that nothing can preempt |
| LoadMeaning.ImmediateInstruction | data/binutils/cve_2017_14745/elf64-x86-64.pacfix.c:2285-2359 | the rewritten bytes decode to the immediate form of the same operation; the register is the same if and only if not REX.B without REX.R; the REX byte stays one |
| LoadMeaning.LoadConversionMeans | data/binutils/cve_2017_14745/elf64-x86-64.pacfix.c:2281-2367 | for every symbol, place and slot whose relocations fit, and everything the loader may put into the slot: a load after its conversion, if any, does the same from every state on every machine if and only if it is not an immediate form with another register |
| LoadMeaning.WrongRegisterWitness | data/binutils/cve_2017_14745/elf64-x86-64.pacfix.c:2353-2359 | bytes 49 8b 05, a load to rax, become a mov to r8 |
| LoadMeaning.BranchIsConvertedIff | data/binutils/cve_2017_14745/elf64-x86-64.pacfix.c:2150-2280 | exactly which branches through the GOT become direct |
| LoadMeaning.BranchConversionMeans | data/binutils/cve_2017_14745/elf64-x86-64.pacfix.c:2228-2280 | after its conversion, if any, a jump or call goes where the slot says, whatever the loader may put there, and returns to the same next instruction, over one nop at most; other bytes stay |
| FindSymbol.RemoveUselessSymbols | data/binutils/cve_2017_14745/objdump.pacfix.c:676-698 | the array is compacted to exactly the useful symbols, in order, the rest untouched |
| FindSymbol.FilteredKeeps | data/binutils/cve_2017_14745/objdump.pacfix.c:676-698 | a useful symbol is kept as often as it occurs, any other not at all |
| FindSymbol.FindRun | data/binutils/cve_2017_14745/objdump.pacfix.c:949-979 | the binary search and the walk back end at the start of a run with the greatest address up to vma |
| FindSymbol.FindSymbolForAddress | data/binutils/cve_2017_14745/objdump.pacfix.c:921-1103 | NULL exactly when no valid symbol is allowed, only those of the section being so if the caller demands it or a relocatable file has the address inside the section; otherwise the one with the greatest address up to vma, or the least above; a valid symbol of the section in the run comes first; when a dynamic relocation is used instead |
| FindSymbol.DemandedIsFound | data/binutils/cve_2017_14745/objdump.pacfix.c:1012-1062 | where the section is demanded, the answer is a symbol of the section, and NULL exactly when it has no valid one |
| Shadow.GenericBufferSize | lib/ghost.c:85-143 | -1 exactly when there is no reachable buffer around the address, otherwise 8 per granule below and the accessible bytes of the others |
| Shadow.GenericBufferBase | lib/ghost.c:233-265 | NULL exactly when no redzone below is reachable, otherwise the first address of the buffer |
| ShadowObjects.QueriesAgree | lib/ghost.c:85-143 | from every interior address within reach the queries find the object: its exact size and its base, whatever lies around it |
| ShadowObjects.AccessibleBytes | lib/ghost.c:85-143 | the accessible bytes of an object are exactly those from its base on, as many as its size |
| ShadowObjects.RefusedAddresses | lib/ghost.c:85-143 | an address in an object's granules gets -1 for the size and NULL for the base if and only if it lies behind the byte after the object's last one |
| Shadow.Layout | lib/ghost.c:6-32 | which addresses are application memory, where their shadow lies, and that shadow and memory addresses go back and forth |
| ShadowObjects.AdjustRedzoneSize | lib/ghost.c:155-226 | the shadow bytes after each case, the error cases that change nothing, and the size returned |
| ShadowObjects.AdjustmentKeepsObject | lib/ghost.c:171-225 | with two granules of redzone above, an adjustment that leaves an object keeps its base and redzones on both sides, and gives the size asked for if and only if it is exact |
| ShadowObjects.AdjustmentKeepsOthers | lib/ghost.c:171-225 | contained adjustments (all growth, shrinks that leave an object, and larger ones that stay in it) keep place and size of every other object, two redzone granules or more away; containment is sufficient for that, and exact for the bytes below |
| ShadowObjects.OtherStaysIff | lib/ghost.c:171-225 | for every adjustment and every other object: place and size stay if and only if the object lies above, or nothing is shrunk, or the shrink's walk spares it |
| ShadowObjects.ShrinkRemovesObject | lib/ghost.c:195-222 | a shrink by the whole object or more, where contained, turns all its granules into redzone |
| ShadowObjects.ShrinkKeepsBelow | lib/ghost.c:195-222 | below two redzone granules: what lies below stays, and they stay redzone, if and only if the shrink is contained |
| ShadowObjects.ShrinkBreaksRedzone | lib/ghost.c:206-222 | where not contained, one of the two redzone granules below becomes accessible or the third granule below changes |
| ShadowObjects.InexactAdjustments | lib/ghost.c:171-225 | 8 bytes grown by 8 give 24, 24 shrunk by 20 give 8, and 8 shrunk by 9 open the redzone |
| ShadowObjects.AdjustedQuery | lib/ghost.c:155-226 | the query after the adjustment finds exactly the adjusted object, with the size asked for if and only if the adjustment is exact |
| DwarfOps.SizedLoadZeroExtends | lib/dwarf_eval.c:195-208 | copying bytes over the word that holds the size zero-extends them |
| DwarfOps.BitwiseBit | lib/dwarf_eval.c:324-326 | every bit of and, or and xor is the table's entry for the operands' bits |
| DwarfOps.DivisionMeans | lib/dwarf_eval.c:298-309 | div and mod truncate toward zero |
| DwarfEval.Stack.Push | lib/dwarf_eval.c:24-38 | pushes, or fails an assertion, as the machine's push does |
| DwarfEval.PushMeans | lib/dwarf_eval.c:24-46 | exactly 20 words fit; a push puts its word behind those in use, and a pop takes it away again |
| DwarfMeaning.PickStep | lib/dwarf_eval.c:65-69 | pick k checks for entry k and copies entry k - 1 |
| DwarfEval.Evaluate | lib/dwarf_eval.c:118-367 | the loop over array and pos computes the run of the program from whatever the stack held, nested frame-address evaluation included |
| DwarfMeaning.StepRefines | lib/dwarf_eval.c:131-347 | each plain operation on the array is the operation on a list, underflow and overflow included, for the evaluator's arithmetic |
| DwarfMeaning.RunInTerms | lib/dwarf_eval.c:118-367 | every program without pick 0 runs as its translation on a list: over is pick 1; drop; dup, pick k is pick k; drop; pick k-1, and rot is rot; rot |
| DwarfArithmetic.PushAgrees | lib/dwarf_eval.c:136-178 | every pushing operation pushes what DWARF 5 says, with the psABI's register numbers and the layout of the saved context |
| DwarfArithmetic.UnaryAgreement | lib/dwarf_eval.c:185-297 | one-operand operations agree with DWARF 5 on all words, except deref_size of 3, 5, 6 or 7 bytes |
| DwarfArithmetic.BinaryAgreement | lib/dwarf_eval.c:298-337 | on all operands: the result is DWARF 5's if and only if the operands meet the operation's condition |
| DwarfArithmetic.RemaindersAgree | lib/dwarf_eval.c:304-309 | exactly for which operands the signed remainder is the unsigned one |
| DwarfArithmetic.ModDiffers | lib/dwarf_eval.c:304-309 | -1 mod 3 is -1 and not 0 |
| DwarfArithmetic.BinaryStopsIff | lib/dwarf_eval.c:298-337 | exactly which operands of which two-operand operations give an error, and which are undefined |
| DwarfArithmetic.UndefinedDiffers | lib/dwarf_eval.c:298-323 | shifts by 64 and the least number divided by -1, undefined here, have values in DWARF 5 |
| DwarfAgreement.StepAgreement | lib/dwarf_eval.c:131-347 | for every operation that does not end the evaluation and every stack, pick 0 and stale cells included: the step is DWARF 5's if and only if its condition holds |
| DwarfAgreement.ReturnAgreement | lib/dwarf_eval.c:179-184 | for the operations that end it: the outcome, with a holder read as its location, is DWARF 5's whatever follows if and only if call_frame_cfa is last and has room, or fails |
| DwarfAgreement.FinalCfaMeans | lib/dwarf_eval.c:179-184 | programs that compute alike, with call_frame_cfa at the end only, have DWARF 5's outcome up to that reading, or lack room |
| DwarfAgreement.CallFrameCfaDiffers | lib/dwarf_eval.c:179-184 | an operation after call_frame_cfa that is dropped |
| DwarfAgreement.RunFollowsStandard | lib/dwarf_eval.c:118-367 | a run whose steps meet their conditions, call_frame_cfa included, has DWARF 5's outcome, which pushes the frame address |
| DwarfAgreement.EvaluationFollowsStandard | lib/dwarf_eval.c:118-367 | so has an evaluation with the frame address of its own expression |
| DwarfAgreement.PlainEvaluation | lib/dwarf_eval.c:118-367 | programs without pick, over and rot have the outcome DWARF 5 gives, whatever the stack held before, as long as their arithmetic and call_frame_cfa meet their conditions |
| DwarfAgreement.TranslationFollowsStandard | lib/dwarf_eval.c:118-367 | programs without pick 0 have the DWARF 5 outcome of their translation, under the same conditions |
| DwarfStandard.LimitOnlyStops | lib/dwarf_eval.h:161-165 | the limit of 20 entries only ever turns an outcome into a failed assertion |
| DwarfMeaning.ThreeTurns | lib/dwarf_eval.c:285-292 | three rot are the identity |
| DwarfAgreement.RotDiffers | lib/dwarf_eval.c:285-292 | a program on which rot brings up another entry than DWARF 5 says |
| DwarfAgreement.OverDiffers | lib/dwarf_eval.c:270-273 | a program on which over copies the top entry |
| DwarfAgreement.PickZeroDiffers | lib/dwarf_eval.c:274-278 | a program whose pick 0 gives what was left in the stack's memory |
| DwarfMeaning.PltFrameAddress | data/binutils/cve_2017_14745/elf64-x86-64.pacfix.c:700-703 | the evaluator gives rsp + 8, plus 8 more when rip mod 16 is at least 11, modulo 2^64, for every register state |
| SedCommand.CommandWords | src/patch_gen.py:335-342 | for every content the shell reads four words, the third being the whole script: no quote ends early |
| SedCommand.EscapedTextIsRead | src/patch_gen.py:338-340 | sed reads the escaped text back as the text, up to the delimiter; no early end, no special escape; it fails exactly on a newline |
| SedCommand.ScriptIsRead | src/patch_gen.py:341 | the script is one substitution of the given line by the text; refused exactly for line 0 and for a newline |
| SedCommand.StripRemovesNewlines | src/patch_gen.py:336 | only newlines are stripped, and all of them at both ends |
| SedCommand.CommandReplacesLine | src/patch_gen.py:328-344 | carried out on any file the command replaces the line by the stripped content, character for character, and nothing else |
| ConditionPatch.FindOpening | src/patch_gen.py:346-354 | the first opening bracket of the line, or -1 |
| ConditionPatch.FindClosing | src/patch_gen.py:356-375 | the first place in all lines where a bracket has been opened and the count is zero, or -1 |
| ConditionPatch.ClosingIsFound | src/patch_gen.py:356-375 | that place closes the first opening bracket if and only if no closing bracket comes before |
| ConditionPatch.StopsAtOpening | src/patch_gen.py:356-375 | the search stops at the first opening bracket itself if and only if exactly one closing bracket stands before it |
| ConditionPatch.FoundIsCondition | src/patch_gen.py:346-375 | what the two searches find has matching brackets |
| ConditionPatch.TextAround | src/patch_gen.py:280-281 | the text is what stands before, between and behind the two positions, on one line or several |
| ConditionPatch.FindCondition | src/patch_gen.py:240-242 | the two searches find the condition that begins at the first opening bracket if and only if no closing bracket stands before it, and what they find is a condition; without an opening bracket on the fix line the closing one is on a later line, if any |
| ConditionPatch.InsertionIsExact | src/patch_gen.py:268-325 | the new condition is the old one in brackets and the constraint, with the text around unchanged: always at the beginning, and at the end if and only if the condition is on one line |
| PatchFile.EditsAppear | src/patch_gen.py:285-325 | the commands of any edits, run one after the other, put exactly these edits into the file and change nothing before the fix line |
| PatchFile.PatchedFile | src/patch_gen.py:268-344 | the commands of an insertion give a file whose text from the fix line on has the new condition, the rest unchanged, with one bracket left over at the end of a condition over several lines |
| PatchFile.FixLinePatched | src/patch_gen.py:268-344 | what the file becomes for any closing position on the fix line, before or behind the opening bracket or without one |
| PatchFile.LaterLinePatched | src/patch_gen.py:268-344 | the same for any closing position on a later line, whatever brackets stand before, and with or without an opening bracket on the fix line |
| PatchFile.FailedSearchDamages | src/patch_gen.py:268-344 | after a failed search for the closing bracket: exactly what the two commands do to the fix line and the line before it, and that the second is refused for a fix on line 1 |

## Left out

- MakePrimeList: takes limits below 203897 only, because beyond that bound the table is wrong and nothing useful can be said about the search.
- ListPrimes: the read `*(sieve + j)` in the loop condition is left out since its terms cancel; the cell at index `size` is one cell of arbitrary content.
- AllocatePlt: symbols other than STT_GNU_IFUNC only, refcount and offset as separate fields although the source has them in one union, and no 64-bit wrap of sizes and counts; the copy of PLT addresses into symbol values is not modelled.
- SizeDynamicSections: takes symbols that are not IFUNC, and `DF_BIND_NOW` as a flag; the sections of several input files are one list of local symbols. That calls of forced-local symbols are local and that the fixup runs for all symbols is part of BFD files that are not part of this model.
- CopyIndirect: without the transfer of the TLS type and of the other symbol flags.
- Record: takes the relocation type after TLS transition and the local symbol's tables as one record per symbol.
- ConvertLoadReloc: the range estimate takes the symbol's offset (after section merging) and the distance between output sections as given.
- LoadConversionMeans: for instructions and REX bytes the psABI allows at each relocation; alignment and memory faults are not modelled.
- BranchConversionMeans: takes a padding byte in front of a call to be a nop or the address-size prefix, as the option means it.
- FindSymbolForAddress: takes the symbols sorted by value and the target's validity test as given; `compare_symbols` and qsort are not part of this model.
- AdjustRedzoneSize: for an address whose last granule before a redzone has 0 to 8 in its shadow byte, and for shrinks whose walk stays in shadow memory; memory faults are not modelled.
- QueriesAgree: the conversion of the size to a 32-bit int is exact for every buffer within reach and is not written out.
- Evaluate: signed overflow of plus, minus, mul, neg and abs wraps around, memory reads never fault, and shifts by 64 or more and the division of the least integer by -1 are one outcome, undefined; a frame-address expression that asks for the frame address again does not end in the source and is the outcome "diverges".
- Standard: `number2` of implicit_value is taken as the value on both sides, although it may refer to a block of bytes, and operations the evaluator does not know (branches, pieces, typed and thread-local operations) fail on both sides.
- StandardUnary: where DWARF 5 leaves abs or neg of the least number undefined, the wrapped value is taken.
- TraceTellsRunIff: an unknown target is any of the blocks that are not only direct targets, whatever jumps there; code outside the graph is not modelled. A call does not end its block and adds no successor (lib/e9AFLPlugin.cpp:276-295), so no run enters a function by a call or resumes its caller: two callers reached silently from one block look alike at the callee, and the elimination sees no conflict.
- CalcInstrumentPoints: takes instructions and targets in address order as given; `buildCFG`, `addPredecessor` and debug printing are not part of this model.
- CommandReplacesLine: for file paths made of letters, digits and `-_./+,@:%`.
- EditsAppear: takes every line of the file to end in a newline.
- Printing of the prime table, and the abort for gaps above 255: output only.
- Process running, fuzzing drivers, file parsing, logging and plotting: plumbing around external tools.
- DWARF entry walking, the address maps, snapshot pruning, and the fork server: they would add only easier members.
