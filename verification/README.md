# Verified models of the APMU memory-policing and profiling software

Dafny models, with proofs, of five separate parts of the repository. `dafny verify dfyconfig.toml`
checks all of it.

**Pausing cores to police memory traffic** (`Regulator`, `PauseProtocol`, `PauseInvariant`,
`PauseTheorems`, `PauseProgress`, `PauseRegulator`, `PauseDuty`, `MempolLog`, `MempolFirmware`). Firmware on the
performance-monitoring core charges a token bucket per application core and pauses or resumes cores
through one 32-bit command word each; a trap handler on every core acts on the word and acknowledges
it. The protocol is a transition system with one step for every access to shared state: counter charge, ACK read, command, flag and count
writes on one side; interrupt delivery (at any moment the handler is not running, for any reason or
none), claim, word read, mepc save and restore, flag and ACK write, return on the other; and application
steps. The theorems hold of every run. The firmware's loop and the handler are also given as imperative
programs, and each is proved to be a run of the transition system. The bucket is computed once in the
firmware's mixed 32-bit arithmetic and once exactly, with the exact condition under which the two agree; the
tokens of every run of the transition system are its tokens.
A log record is packed by one program and unpacked by another.

**Hand-assembled RV32I programs** (`Rv32i`, `RiscvEncoder`, `BubbleSort`, `BubbleSortProgram`,
`RegisterFillProgram`, `HostAccess`, `BubbleSortHost`, `RegisterFillHost`). An interpreter for add, addi,
lui, lw, sw, beq, bne and bgeu, following
sections 2.4 to 2.6 of the RV32I chapter of the RISC-V Unprivileged ISA. The literal machine words of
the two test programs are decoded and executed symbolically: the sort refines the C bubble sort, the
fill leaves what the host then checks. The host runs beside the program: each of its accesses finds the memory
as it is after some number of the program's steps, any number that does not decrease.

**A FAT16 volume in memory and its file layer** (`Fat16`, `Fat16Volume`, `Fat16Bytes`, `Fat16Theorems`,
`Fat16Runs`, `Fat16Names`, `FatChain`, `FatPath`, `FatCopy`, `FatFile`, `FatDirectory`, `FatRoundTrip`,
`FileStream`, `ScanBytes`, `BareHeap`).
Memory is all bytes from the partition base that a 32-bit offset plus an index can name, so wrapping
address arithmetic is part of the model.
`Fat16Volume.Volume` updates it in place; its effect is stated as a function of the bytes before, and
the theorems are about those functions. `Fat16Bytes`, `FatDirectory` and `ScanBytes` say in byte offsets and
byte values what the functions mean.

**The call profiler** (`Profiler`, `ProfilerWords`). Polling firmware matches entries to exits of a function another core
executes. A turn records how many events there had really been at each of its two reads.

**Small algorithms** (`Decimal`, `PrintedText`, `ElfWords`, `ElfWriters`, `ElfFiles`, `Find3`). Shift-only division by ten and decimal
printing; the ELF word map and its writers; the two-order nonzero scan.

`Machine32`, `Bits` and `Options` hold what several parts share: 32-bit conversion, bitwise operators on
unsigned integers, an option type.

## Where the code falls short of its intention

Each is stated as proved, with the exact condition where there is one.

- A patched address with bit 11 set is loaded 4096 too low, because addi sign-extends
  (`RiscvEncoder.LoadAddress`): the sort then leaves its array alone and sorts the words a page below
  (`BubbleSortProgram.ProgramSortsWhen`). Its length field is right only up to 512 (`BubbleSortProgram.PrefixRight`).
- The register-fill test trusts a 101 that it did not clear: a target that already holds it, as on a second call, or
  where the suite has left the least word of a sorted array (mempol/pmu_test_func.c:643-659), ends the wait before
  any register is written (`RegisterFillHost.TrustworthyWhen`, `RegisterFillHost.SecondCallFails`,
  `RegisterFillHost.StaleReport`).
- The sorting test takes the array to be finished when its error count repeats. It can be trusted for every timing
  exactly when the array is sorted to begin with (`BubbleSortHost.SettledErrors`, `BubbleSortHost.GivesUpEarly`).
- A token outside [-2^29, 2^29) is not recovered from the log (`MempolLog.TokenRoundTrip`, `MempolLog.LostToken`).
- Creating a file changes the lookups of others on a volume whose end markers are not at the end: exactly when
  (`Fat16Theorems.LookupStays`), and an example (`Fat16Theorems.StaleEntryReturns`).
- `fat16_alloc` scans to 0xFFF7 whatever the FAT's size (`Fat16Theorems.StaysInside`,
  `Fat16Theorems.FullVolumeStillCreates`).
- The copy loop of `fat_fopen` adds in 32 bits. For sizes within one cluster of 2^32 it can write past its
  buffer and never end (`FatCopy.CopyWorksWhen`, `FatCopy.EndsWhen`, `FatCopy.CopiesForEver`), and the buffer's
  block is too small for the last eight sizes (`BareHeap.BufferCovers`). The allocator's mask drops the high half
  of a size (`BareHeap.Covers`).
- `find_in_dir` need not end on a directory whose chain runs in a circle (`FatPath.SearchEndsWhen`,
  `FatPath.SearchesForEver`).
- `fat_fread` takes the byte count modulo 2^32, so one read may take less than two (`FileStream.PiecesJoin`,
  `FileStream.OneReadTakesNothing`).
- With both padding flags and a width to fill, the printers put zeros behind the digits, which is another number
  (`PrintedText.FormattedShows`).
- The mask in `__add_mem_word` has one bit, not one byte, for each byte of a word. It is harmless for the
  widths in use and destroys data at 16 and beyond (`ElfWords.WidthsThatWork`).
- `gen_stim_bin` sorts addresses as strings, and then need not end (`ElfWriters.StringOrderIsNumeric`,
  `ElfWriters.AllGapsEndWhen`, `ElfWriters.TenBeforeNine`).
- The profiler loses calls, and gives records another call's snapshot, when its loop is too slow: exactly when
  (`Profiler.NoCallIsLost`, `Profiler.NoTickIsMissed`, `Profiler.RecordIsOwn`), and an example
  (`Profiler.FastCallsAreLost`).
- The header comment of `fat16_mount` promises -1 for a bad signature and names another base address; the
  code only warns, and the model follows the code.

## Model

| member | source | states |
|---|---|---|
| `PauseTheorems.Transparency` | mempol/pmu_bench.c:376-431 | In every interleaving of firmware, handlers, application steps and interrupts, each application executes exactly the program counters of a run without interrupts; no pause saves an address in wfi_loop; the i-th resume restores what the i-th pause saved |
| `PauseTheorems.Refinement` | mempol/pmu_bench.c:376-409 | Every event of every reachable state leaves an application's logical position alone or is one step of it from there |
| `PauseTheorems.Ownership` | mempol/pmu_firmware/main.c:295-318 | The firmware writes a command word only while it holds ACK and everything issued has been acted on; a handler writes only while the word holds a command, writes ACK, and has then acted on exactly that command |
| `PauseTheorems.Conservation` | mempol/pmu_firmware/main.c:301-317 | Commands acted on are the commands issued, in order, less the one still in the word; irq_sent counts the commands issued, one short only between writing a command and counting it |
| `PauseTheorems.Agreement` | mempol/pmu_bench.c:393-409 | Commands to a core alternate pause, resume, starting with pause; the throttled flag is irq_sent mod 2; under ACK the hart's paused flag equals the throttled flag |
| `PauseTheorems.ReplayedDecisions` | mempol/pmu_firmware/main.c:301-317 | At every iteration boundary, replaying core 0's decisions gives its throttled flag |
| `PauseTheorems.TokenNeverAboveCap` | mempol/pmu_firmware/main.c:285-291 | No reachable state has a token above the cap, for any cap that is not negative |
| `PauseTheorems.ResumedOnTime` | mempol/pmu_firmware/main.c:285-318 | For every budget and cap below 2^31: a throttled core that has acknowledged and makes no traffic with token -d is sent nothing before ceil(d/A) periods, and its resume in the slot of the period that completes them |
| `PauseDuty.SlotWrites` | mempol/pmu_firmware/main.c:295-318 | A slot writes 0x40000000 if and only if bit 20 of the word is set, the token is negative and the core is not throttled; 0x41000000 if and only if it is set, the token is not negative and the core is throttled; else nothing; flag, count and core 0's decision follow |
| `PauseDuty.ServedInItsSlot` | mempol/pmu_firmware/main.c:262-318 | In every run, from any state in which an acknowledged core is about to be charged: nothing is sent before the charge; the slot sends the pause if the charged token is negative and the core was not throttled, the resume if it is not negative and the core was throttled; else nothing before the next charge |
| `PauseDuty.NothingUndue` | mempol/pmu_firmware/main.c:295-318 | In no reachable state does any event pause a core whose token is not negative or that is throttled, or resume one whose token is negative or that is not throttled, or send anything else |
| `PauseDuty.EveryCoreEveryPeriod` | mempol/pmu_firmware/main.c:246-329 | In every run each core has been charged exactly as often as there have been iterations, whenever one has ended |
| `PauseTheorems.DefaultsAreRoomy` | mempol/pmu_firmware/main.c:97-117 | The default parameters meet that bound |
| `PauseProgress.EveryCommandIsAnswered` | mempol/pmu_bench.c:344-438 | From every reachable state on: by the ninth step of its own towards or inside its handler (claims answering the firmware's interrupt) the hart's word has held ACK, whatever firmware, other harts and applications did in between |
| `PauseProgress.ReachableCanAnswer` | mempol/pmu_bench.c:344-438 | In every reachable state those steps are there to be taken: at most nine events of that hart alone lead to ACK |
| `PauseProgress.OwnStepNears` | mempol/pmu_bench.c:389-438 | While a command is outstanding each such step brings the acknowledgement nearer or is it |
| `PauseProgress.OthersLeaveIt` | mempol/pmu_firmware/main.c:295-318 | No other event touches an outstanding command or how far its hart has come |
| `PauseInvariant.RunInv` | mempol/pmu_firmware/main.c:246-376 | The protocol's inductive invariant holds after every run from the initial state |
| `PauseInvariant.StepInv` | mempol/pmu_bench.c:344-438 | Every event of firmware, handler, application or interrupt keeps the invariant |
| `PauseInvariant.InitialInv` | mempol/pmu_bench.c:474-494 | The state in which the handler becomes live (words already hold ACK, globals clear) satisfies the invariant |
| `PauseInvariant.FirmwareStepInv` | mempol/pmu_firmware/main.c:295-318 | Each single access of the send sequence (word, flag, count) keeps flag, count and command history in step, and only ACK is ever overwritten |
| `MempolFirmware.DrivePolices` | mempol/pmu_firmware/main.c:295-318 | The accesses for one core, run back to back, amount to one branch on ACK, token sign and throttled flag, which PauseDuty.SlotWrites gives in numbers |
| `MempolFirmware.DriveIsRun` | mempol/pmu_firmware/main.c:255-329 | One core's slot of the loop is a run of the transition system |
| `MempolFirmware.PollIsRun` | mempol/pmu_firmware/main.c:246-329 | A whole polling iteration is a run of the transition system, so all theorems about runs apply to the program |
| `MempolFirmware.HandlerIsRun` | mempol/pmu_bench.c:389-438 | The trap handler's steps are a run of the transition system |
| `MempolFirmware.DriveHandles` | mempol/pmu_bench.c:389-409 | A claimed PMU interrupt pauses, resumes or does nothing, by the word read |
| `MempolFirmware.Pmu.constructor` | mempol/pmu_firmware/main.c:203-238 | Boot leaves every word at ACK, no token, nothing sent, an empty log |
| `MempolFirmware.Pmu.ChargeCore` | mempol/pmu_firmware/main.c:262-291 | Charges exactly one core's bucket, by the 32-bit update |
| `MempolFirmware.Pmu.Send` | mempol/pmu_firmware/main.c:303-306 | Writes the word, the flag and the count of one core, and nothing of the others |
| `MempolFirmware.Pmu.Regulate` | mempol/pmu_firmware/main.c:295-325 | One decision in place, spelled out in words and flags (pause on a negative token, resume on one that is not, only on ACK), and the transition system's slot |
| `MempolFirmware.Pmu.PoliceCore` | mempol/pmu_firmware/main.c:255-329 | One slot in place equals the transition system's slot |
| `MempolFirmware.Pmu.PoliceAll` | mempol/pmu_firmware/main.c:255-329 | All slots in place equal the transition system's iteration |
| `MempolFirmware.Pmu.PollIteration` | mempol/pmu_firmware/main.c:246-353 | One iteration in place equals the transition system's, and appends one record with core 0's counts, decision and token |
| `MempolFirmware.Traps.HandleTrap` | mempol/pmu_bench.c:344-438 | The handler in place equals the transition system's handler for its own interrupt (claim 156 + c), with the masks, words and saved address spelled out; changes nothing for any other cause, and never touches another hart's state |
| `Regulator.UpdateAgreement` | mempol/pmu_firmware/main.c:283-291 | One mixed int32/uint32 update equals the exact one if and only if the uncapped token fits int32, or overflows upward onto a value the cap cuts anyway |
| `Regulator.UpdateIs` | mempol/pmu_firmware/main.c:283-291 | One period in numbers: in range, the new token is the smaller of the cap w*pollPeriod*b and token + b*p less the four weighted readings |
| `Regulator.DefaultPeriod` | mempol/pmu_firmware/main.c:97-117 | With the default parameters: 172000 a period, 10000 an LLC read, 6120 a memory read, 4400 a memory write, at most 344000 |
| `Regulator.Charge32IsCharge` | mempol/pmu_firmware/main.c:283-286 | Even where V alone wraps, the charged token depends only on the exact total modulo 2^32 |
| `Regulator.V32IsTraffic` | mempol/pmu_firmware/main.c:283 | V is the exact weighted traffic modulo 2^32 |
| `Regulator.Cap32IsCap` | mempol/pmu_firmware/main.c:289 | The computed cap is the exact one whenever that fits int32 |
| `Regulator.FirmwareRunIsExact` | mempol/pmu_firmware/main.c:262-291 | A firmware run equals the exact-integer regulator whenever the exact uncapped token stays in int32 range |
| `Regulator.AgreementIsRange` | mempol/pmu_firmware/main.c:283-291 | With room for one budget above the cap, the two runs agree at every period if and only if the exact uncapped token stays in range |
| `Regulator.MinPlus` | mempol/pmu_firmware/main.c:286-291 | The token after a run is the minimum, over all suffixes, of restarting at the cap (or at the initial token for the whole run) |
| `Regulator.WindowBound` | mempol/pmu_firmware/main.c:283-291 | In every window of n periods of the exact recurrence the charged traffic is at most n*A + the token before - the token after, hence n*A + cap - the token after |
| `PauseRegulator.TokenIsRun32` | mempol/pmu_firmware/main.c:246-291 | In every run of the whole system a core's token is what the firmware's recurrence makes of the readings charged to that core |
| `PauseRegulator.TokenIsExact` | mempol/pmu_firmware/main.c:246-291 | And what the exact recurrence makes of them, when no uncapped token leaves int32 |
| `PauseRegulator.WindowOfRun` | mempol/pmu_firmware/main.c:246-291 | So in every window from every reachable state on, in range, the traffic charged to a core is at most n*A + its token before - its token after, and the token before is at most the cap |
| `Regulator.Refill` | mempol/pmu_firmware/main.c:286-291 | Without traffic a bucket refills along min(t + n*A, cap) |
| `Regulator.RunBelowCap` | mempol/pmu_firmware/main.c:289-291 | A run started at or below the cap stays there |
| `MempolLog.CountsRoundTrip` | mempol/pmu_bench.c:983-989 | The host recovers every record's counts saturated at 511, 511, 127 and 127 |
| `MempolLog.TokenRoundTrip` | mempol/pmu_bench.c:990-991 | The host recovers every decision, and the token if and only if it lies in [-2^29, 2^29) |
| `MempolLog.RoundTrip` | mempol/pmu_firmware/main.c:343-349 | Pack and decode give back every report, counts saturated, decision as it was, token as the number in [-2^29, 2^29) that agrees with it modulo 2^30 |
| `MempolLog.CountsWordIs` | mempol/pmu_firmware/main.c:343-346 | The first word: LLC reads and writes up to 511 from bits 23 and 14, memory reads and writes up to 127 from bits 7 and 0 |
| `MempolLog.TokenWordIs` | mempol/pmu_firmware/main.c:349 | The second word: the decision from bit 30, below it the token modulo 2^30 |
| `MempolLog.DecodedIs` | mempol/pmu_bench.c:983-991 | The host takes any two words apart at the same bits, and extends the token's sign from bit 29 |
| `MempolLog.LostToken` | mempol/pmu_firmware/main.c:349 | A token outside the range: -2^30 is read back as 0 |
| `MempolLog.SlotsFit` | mempol/pmu_firmware/main.c:348-352 | Record slots do not overlap each other or the header, and none passes the end of DSPM |
| `MempolLog.Append` | mempol/pmu_firmware/main.c:343-353 | After n appends the log holds the first min(n, 10000) records in order; one append changes its slot and the header only |
| `MempolLog.Dump` | mempol/pmu_bench.c:979-993 | The host's dump decodes the first min(header, 10000) slots of any log; of a log of reports it is what the host sees of each, in order |
| `RiscvEncoder.LuiRoundTrip` | mempol/riscv_encoder_instr.c:6-15 | Decoding an encoded lui gives lui of the low 5 bits of rd and the low 20 bits of the immediate, for all arguments |
| `RiscvEncoder.AddiRoundTrip` | mempol/riscv_encoder_instr.c:17-28 | Decoding an encoded addi gives addi with the sign-extended low 12 bits |
| `RiscvEncoder.EncodeLuiIs` | mempol/riscv_encoder_instr.c:6-15 | The lui word: opcode 0x37, rd from bit 7, 20 bits of immediate from bit 12 |
| `RiscvEncoder.EncodeAddiIs` | mempol/riscv_encoder_instr.c:17-28 | The addi word: opcode 0x13, rd from bit 7, rs1 from bit 15, 12 bits of immediate from bit 20 |
| `RiscvEncoder.LoadAddress` | mempol/pmu_test_func.c:210-215 | The lui/addi pair loads exactly the address if and only if its bit 11 is clear, and otherwise 4096 less |
| `BubbleSort.BubbleSortCorrect` | mempol/pmu_test_func.c:276-300 | The C algorithm's result is sorted and a permutation of its input |
| `BubbleSort.BubbleSortC` | mempol/pmu_test_func.c:276-300 | The in-place C loops compute that result, with the early exit, for every non-empty array |
| `BubbleSortProgram.ProgramDecodes` | mempol/pmu_test_func.c:181-218 | The literal words, patched, decode to the listed instructions for every base and length |
| `BubbleSortProgram.InnerLoop` | mempol/pmu_test_func.c:187-194 | The inner loop's words perform one pass, swap by swap, touching nothing outside the array |
| `BubbleSortProgram.OuterLoop` | mempol/pmu_test_func.c:186-199 | The outer loop's words perform passes until one swaps nothing or the range is exhausted, then reach the spin |
| `BubbleSortProgram.MachineRefinesC` | mempol/pmu_test_func.c:186-200 | From word 4, for every length from 2 and all contents, the machine code reaches the spin with the array the C bubble_sort computes, memory elsewhere unchanged |
| `BubbleSortProgram.SpinForever` | mempol/pmu_test_func.c:199-200 | At the spin the program stays and memory stays, for any number of steps |
| `BubbleSortProgram.PrefixRight` | mempol/pmu_test_func.c:210-218 | The patched prefix sets x1 to the base if and only if bit 11 of the base is clear, and x2 to x1 + 4*(len-1) if and only if len <= 512 |
| `BubbleSortProgram.PrefixWrong` | mempol/pmu_test_func.c:213-215 | A base with bit 11 set is loaded 4096 too low |
| `BubbleSortProgram.ProgramSorts` | mempol/pmu_test_func.c:175-245 | The whole patched program sorts every array of 2 to 512 words at a base with bit 11 clear |
| `BubbleSortProgram.ProgramSortsWhen` | mempol/pmu_test_func.c:175-245 | With 2 to 512 words at any base the array ends up sorted if and only if bit 11 of the base is clear or it was sorted already: otherwise the words 4096 below are sorted and the array is left alone |
| `BubbleSort.SortedStays` | mempol/pmu_test_func.c:276-300 | The sort leaves an array as it is if and only if it is sorted |
| `BubbleSortProgram.SortedRun` | mempol/pmu_test_func.c:186-199 | On a sorted array no step of the program changes any word |
| `BubbleSortHost.SettledErrors` | mempol/pmu_test_func.c:245-273 | Beside the running program, each read at any moment, the comparisons end and answer the first count that repeats: zero if the array was sorted beforehand, or is by the first read |
| `BubbleSortHost.GivesUpEarly` | mempol/pmu_test_func.c:253-264 | For every array that is not sorted beforehand some timing makes the host answer a count above zero: two comparisons before the program's first step |
| `BubbleSortHost.Finishes` | mempol/pmu_test_func.c:245-262 | From some step on, for ever, the array is the one the host sorted for itself |
| `RegisterFillProgram.ProgramDecodes` | mempol/pmu_test_func.c:371-427 | The literal fill words, patched, decode to the listed instructions |
| `RegisterFillProgram.FillLoop` | mempol/pmu_test_func.c:381-393 | From any bundle on, the loop stores 271*(4k+j+1) in register j of every remaining bundle k; at no step on the way does a word outside the bundles change, nor a register that held its value before |
| `RegisterFillProgram.FillsThenReports` | mempol/pmu_test_func.c:380-396 | All registers are filled, nothing outside the bundles having changed at any step, before 101 is written to the target two steps later |
| `RegisterFillProgram.CountFits` | mempol/pmu_test_func.c:420-421 | The patched counter count survives its 12-bit field if and only if it is below 2048 (or within 2048 of 2^32) |
| `RegisterFillProgram.ProgramFills` | mempol/pmu_test_func.c:362-439 | The whole program leaves 271*(4k+j+1) at base + 4096k + 4j for every bundle k and register j, and two steps later 101 in the target, for every count from 1 to 2047 and addresses with bit 11 clear |
| `RegisterFillProgram.SpinForever` | mempol/pmu_test_func.c:396-397 | Afterwards the program spins without touching memory |
| `RegisterFillHost.TrustworthyWhen` | mempol/pmu_test_func.c:362-476 | Whatever the timing: whenever the host finds 101 every register is right from then on, if and only if the target does not hold 101 before the program starts, or every register already holds its value: nothing clears the target |
| `RegisterFillHost.ProgramStarts` | mempol/pmu_test_func.c:371-427 | The literal words, patched, are such a program |
| `RegisterFillHost.FoolsTheHost` | mempol/pmu_test_func.c:441-475 | Otherwise accesses before the program's first step make the check count an error |
| `RegisterFillHost.SecondCallFails` | mempol/pmu_test_func.c:362-445 | So it is on a second call with the same target and more counters |
| `RegisterFillHost.StaleReport` | mempol/pmu_test_func.c:441-475 | A memory on which it is: zero registers and a target that holds 101 |
| `RegisterFillHost.WaitFor` | mempol/pmu_test_func.c:441-445 | The wait ends, at the first access that finds 101 |
| `RegisterFillHost.CheckBundles` | mempol/pmu_test_func.c:448-474 | The host's error count is zero exactly when every read finds the register's value |
| `RegisterFillHost.HostCheck` | mempol/pmu_test_func.c:441-476 | Beside the running program, each access at any moment, wait and check end, with zero errors whenever the target did not hold 101 beforehand or every register was right already |
| `Rv32i.Assembled` | mempol/pmu_test_func.c:181-201 | A word is decoded by its RV32I fields, whichever format they select |
| `Fat16Volume.Volume.Mount` | sad_profile/fat16.c:41-64 | Mounting reads the fields from bytes 0x0B to 0x17, spelled out, and puts FATs, root directory and data one after another, whatever the signature |
| `Fat16Bytes.MountReads` | sad_profile/fat16.c:49-61 | Format and mount: whatever six values bytes 0x0B/0x0C, 0x0D, 0x0E/0x0F, 0x10, 0x11/0x12 and 0x16/0x17 encode are the mounted fields, and the three start sectors follow from them |
| `Fat16Bytes.Places` | sad_profile/fat16.c:31-38 | Where FAT 1, FAT 2, every 32-byte slot and every cluster start in bytes, in terms of the six encoded values, on every volume that fits 32-bit addresses |
| `Fat16Bytes.EntryBytes` | sad_profile/fat16.h:66-74 | A FAT entry is two bytes, a directory entry's first cluster bytes 26 and 27, its size bytes 28 to 31, little-endian |
| `Fat16Bytes.FindsFirstNamed` | sad_profile/fat16.c:83-93 | A lookup answers a slot if and only if it is the first that is neither 0x00 nor 0xE5 nor a volume label (bit 3 of byte 11) and has the eleven bytes, with no 0x00 slot before it |
| `Fat16Bytes.CreatesFirst` | sad_profile/fat16.c:67-119 | A creation takes the first slot that starts with 0x00 or 0xE5 and the first cluster from 2 to 0xFFF6 whose FAT entry is zero; it fails, changing nothing, if and only if one is missing |
| `Fat16Bytes.CreatedBytes` | sad_profile/fat16.c:67-119 | Every byte of memory after a creation: 0xFFFF in both FATs, zeros in the cluster, the entry with attribute 0x20, all else as before |
| `Fat16Theorems.MountedInSequence` | sad_profile/fat16.c:56-61 | FATs, root directory and data follow one another; the root directory takes the least number of sectors that holds its entries |
| `Fat16Theorems.MountedIsLaid` | sad_profile/fat16.c:31-64 | For every boot sector with non-zero counts whose volume fits 32-bit addresses, FATs, root directory and clusters occupy disjoint regions in order |
| `Fat16Volume.Volume.Take` | sad_profile/fat16.c:73-75 | Marks one cluster end-of-chain in each FAT and zeroes its data, in place |
| `Fat16Volume.Volume.Alloc` | sad_profile/fat16.c:67-80 | Takes the lowest free cluster, or changes nothing and answers 0 |
| `Fat16.FirstFreeIsLowest` | sad_profile/fat16.c:71-79 | The scan's cluster is free and no lower one is; 0 only if none in [2, 0xFFF7) is |
| `Fat16Volume.Volume.FindEntry` | sad_profile/fat16.c:83-93 | The scan in place: stops at an end marker, skips deleted slots and volume labels, compares 11 bytes |
| `Fat16Volume.Volume.FreeEntry` | sad_profile/fat16.c:95-102 | The first slot whose first byte is 0x00 or 0xE5 |
| `Fat16Volume.Volume.WriteEntry` | sad_profile/fat16.c:112-115 | The slot becomes the name, archive attribute, first cluster, size zero, and nothing else |
| `Fat16Volume.Volume.CreateFile` | sad_profile/fat16.c:105-119 | Creates an entry with a cluster, or changes nothing when the directory or the FAT is full |
| `Fat16Volume.Volume.SetSize` | sad_profile/fat16.h:66-69 | Stores the size in the entry's bytes 28 to 31, lowest first, and changes nothing else |
| `Fat16Theorems.TakesLowestFree` | sad_profile/fat16.c:71-76 | The new file's cluster is the lowest free one and lies on no chain |
| `Fat16Theorems.KeepsWellFormed` | sad_profile/fat16.c:105-119 | Creating keeps the second FAT a mirror of the first, and end markers at the end if and only if the name does not start with one or nothing else follows the slot |
| `Fat16Theorems.KeepsChains` | sad_profile/fat16.c:67-119 | Every chain and all its data bytes are unchanged |
| `Fat16Theorems.NewChain` | sad_profile/fat16.c:73-75 | The new file's chain is its one cluster, zeroed; its entry says so with size 0 |
| `Fat16Theorems.FindsTheNewFile` | sad_profile/fat16.c:83-93 | The new name is found at the new slot if and only if its first byte is neither 0x00 nor 0xE5 and no earlier entry has the name |
| `Fat16Theorems.FindsTheOthers` | sad_profile/fat16.c:83-119 | On a volume with its end markers at the end the lookup of another name is unchanged if and only if the new name does not start with an end marker or the other was not found beyond the slot |
| `Fat16Theorems.LookupStays` | sad_profile/fat16.c:83-119 | On every volume the lookup of another name is unchanged if and only if it was found before the new slot, or the new entry is an end marker and it was not found beyond, or is none and no end marker at its slot hid an entry of that name |
| `Fat16Theorems.LookupOf` | sad_profile/fat16.c:83-119 | What it becomes: as before in front of the new slot; behind it nothing if the new entry is an end marker, else the first such entry, hidden before or not |
| `Fat16Theorems.JoinsTheFiles` | sad_profile/fat16.c:105-119 | Any family of files with disjoint chains stays one when the new file joins it |
| `Fat16Theorems.RunIsSound` | sad_profile/fat16.c:105-119 | Over any run of creations the volume stays well-formed, chains stay disjoint and every old file keeps chain and bytes |
| `Fat16Runs.FormattedIsSound` | sad_profile/fat16.c:41-119 | Whatever its boot sector, a mounted volume that fits 32-bit addresses and whose root directory and FAT entries from 2 on are zero is well-formed, and a run of creations gives file j slot j and cluster j + 2, up to all slots or all clusters |
| `Fat16Runs.EnoughRoom` | sad_profile/fat16.c:67-80 | As many free FAT entries as names, counted before the run, keep every allocation of the run below the limit |
| `Fat16Runs.UsesOne` | sad_profile/fat16.c:71-79 | A creation uses up exactly one free FAT entry, or none when it fails |
| `Fat16Runs.RoomyRunIsSound` | sad_profile/fat16.c:105-119 | So a run of no more creations than free clusters keeps the volume well-formed and every old file's chain and bytes |
| `Fat16Names.RunFindsEach` | sad_profile/fat16.c:83-119 | Over any run of creations under distinct live names each name that was not there before is found at the slot its own creation took, or nowhere if that creation failed |
| `Fat16Names.RunKeepsOthers` | sad_profile/fat16.c:83-119 | And the lookup of every name that is not among them is unchanged |
| `Fat16Names.FormattedLookups` | sad_profile/fat16.c:41-119 | On a freshly formatted volume each of them is found, the j-th at slot j, and nothing else is |
| `Fat16Theorems.StaleEntryReturns` | sad_profile/fat16.c:87-99 | A mountable volume without end markers at the end, on which creating one file brings a dead entry back to life |
| `Fat16Theorems.StaysInside` | sad_profile/fat16.c:71-79 | Allocation stays below the FAT's own entry count if and only if an entry below it is free or no zero word follows up to 0xFFF7: the scan does not know the FAT's size |
| `Fat16Theorems.FullVolumeStillCreates` | sad_profile/fat16.c:71-79 | On a mountable full volume with an empty directory a file is still created, on a cluster whose FAT entry lies in the root directory |
| `FatPath.To83` | sad_profile/fat_file.c:36-57 | Base and extension around the last dot, upper-cased, cut or space-padded to 8 and 3; whether the base was cut |
| `FatPath.MatchIgnoresCase` | sad_profile/fat_file.c:65-71 | The entry of a valid 8.3 name, with or without an extension, matches another if and only if they agree but for case |
| `FatPath.Matches` | sad_profile/fat_file.c:65-83 | Exact 8.3 match, or the ~ form of a base longer than eight |
| `FatPath.FindInRoot` | sad_profile/fat_file.c:88-98 | The root scan in place |
| `FatPath.FindInDir` | sad_profile/fat_file.c:101-118 | Whenever the search ends it answers what the scan of the walk's slots in order does, without . and .. |
| `FatPath.SearchEndsWhen` | sad_profile/fat_file.c:101-118 | The search of a chained directory ends if and only if the walk along the FAT does or one of its slots is an end marker or a match: a chain in a circle is no harm by itself |
| `FatPath.FindInCluster` | sad_profile/fat_file.c:106-114 | One cluster of it: a match, the end of the directory, or on to the next |
| `FatPath.ScanFindsFirst` | sad_profile/fat_file.c:107-114 | A scan answers an entry if and only if one matches before the end marker, and then the first such |
| `FatDirectory.MatchInBytes` | sad_profile/fat_file.c:36-83 | An entry matches a component if and only if its eight and three bytes hold, blank-padded and raised to upper case, the parts around the last dot; or, of a base longer than eight, six bytes, a ~ and the extension |
| `FatDirectory.HitInBytes` | sad_profile/fat_file.c:92-95 | A slot can be an answer if and only if its first byte is neither 0x00 nor 0xE5 (nor, below the root, a dot), bit 3 of byte 11 is clear, and its name bytes match |
| `FatDirectory.SlotsOfChain` | sad_profile/fat_file.c:103-108 | Slot i of a chain's cluster k is 32*i bytes into it, cluster after cluster |
| `FatDirectory.PathThroughDirectory` | sad_profile/fat_file.c:143-152 | With root slot e the first match for dir, dir/name resolves to g if and only if bit 4 of byte e + 11 is set and g is the first live match for name before the end marker on the slots of e's chain; with the bit clear, to nothing |
| `FatDirectory.NoSuchDirectory` | sad_profile/fat_file.c:147-148 | Without a match for dir in the root, to nothing |
| `FatDirectory.PathInRoot` | sad_profile/fat_file.c:130-140 | A path without a slash resolves to its first match in the root; one of 64 bytes or more to nothing |
| `FatPath.SearchesForEver` | sad_profile/fat_file.c:101-118 | A mountable volume on which it does not: one cluster that is its own successor, all entries deleted |
| `FatChain.EndsUnlessItRepeats` | sad_profile/fat_file.c:105-116 | The walk along the FAT ends if and only if it never meets a cluster twice |
| `FatChain.TheWalk` | sad_profile/fat16.h:71-74 | A walk that ends is unique and at most 0xFFF5 clusters long |
| `FatChain.NothingNew` | sad_profile/fat_file.c:105-116 | A walk that does not end has met every cluster it ever will after 0xFFF7 steps |
| `FatFile.ResolvePath` | sad_profile/fat_file.c:126-153 | The path resolution in place, for every path of any length, whenever the search of a directory it enters ends; FatDirectory says what it resolves to |
| `FatFile.Gather` | sad_profile/fat_file.c:178-185 | The copy loop in place: exactly where it ends with every copy right, it leaves the first bytes of the chain's clusters in order |
| `FatCopy.CopyWorksWhen` | sad_profile/fat_file.c:178-185 | The loop ends with every copy right if and only if, n being the cluster size and T = (size - 1) / n, the sum (T + 1) * n is below 2^32 or the chain has at most T clusters (or the file is empty; or n is 0 and the chain ends) |
| `FatCopy.CopiesRight` | sad_profile/fat_file.c:180-182 | No copy passes the end of the buffer, and every copy is the right bytes' length at the right offset, if and only if that sum fits or the chain is that short |
| `FatCopy.EndsWhen` | sad_profile/fat_file.c:178-184 | The loop ends if and only if the walk along the FAT does, or size + 2^k is at most 2^32, 2^k the largest power of two dividing n (or the file is empty) |
| `FatCopy.RunsWhile` | sad_profile/fat_file.c:178-184 | Pass i takes place if and only if the walk has that many clusters and no multiple of n up to i*n has reached the size modulo 2^32; it then starts at offset i*n modulo 2^32 |
| `FatCopy.CopyIsExact` | sad_profile/fat_file.c:180-181 | One copy is of the right length, and stays inside, if and only if the sum of copied and cluster bytes does not wrap |
| `FatCopy.CopiesForEver` | sad_profile/fat_file.c:178-185 | A mountable volume on which it fails: a chain in a circle and a size of 2^32 - 1; a copy passes the end of the buffer, and the loop never ends |
| `FatFile.Load` | sad_profile/fat_file.c:164-191 | The buffer holds as many of the first size bytes as the chain has, then a 0 byte |
| `FatFile.Open` | sad_profile/fat_file.c:157-192 | Opening fails exactly when the path does not resolve, and otherwise yields those contents |
| `FatDirectory.OpenThroughDirectory` | sad_profile/fat_file.c:157-192 | Opening dir/name whose directory bit is set yields the size in bytes g + 28 to g + 31 and as many bytes of g's chain as that and the chain allow |
| `FatDirectory.StoredIsChain` | sad_profile/fat_file.c:178-185 | What is read of a file is the first bytes of its chain's clusters, one after another |
| `FatDirectory.JoinedByte` | sad_profile/fat_file.c:178-185 | Byte i of the chain's cluster k is at offset k times the cluster size + i of them |
| `FatRoundTrip.Save` | sad_profile/fat16.h:55-57 | Create, fill the cluster, store the size: the memory that results |
| `FatRoundTrip.SavedReadsBack` | sad_profile/fat_file.c:164-186 | Opening the saved entry yields exactly the data written |
| `FatRoundTrip.SavedIsFound` | sad_profile/fat_file.c:88-98 | The root scan finds the saved file if it found nothing of that name before |
| `FatRoundTrip.SavedOpens` | sad_profile/fat_file.c:157-186 | So its path resolves to an entry whose contents are the data |
| `FatRoundTrip.SavedKeepsOthers` | sad_profile/fat_file.c:178-185 | Every other file still reads as it did, at any size |
| `FileStream.Stream.Read` | sad_profile/fat_file.c:194-202 | Copies min(sz*count mod 2^32, rest) bytes from the position, advances by as much, counts whole items, and leaves the rest of the buffer |
| `FileStream.Stream.Seek` | sad_profile/fat_file.c:204-217 | Moves relative to start, position or end, clamped to the file; any other origin fails and moves nothing |
| `FileStream.Stream.Scan` | sad_profile/fat_file.c:234-254 | The scan loops in place; ScanBytes.ScanIs says in bytes what they answer |
| `ScanBytes.SkipsTheBlanks` | sad_profile/fat_file.c:237-240 | A scan skips the maximal run of bytes 9, 10, 13 and 32, and no other byte |
| `ScanBytes.ScanIs` | sad_profile/fat_file.c:234-254 | After it: -1 at the end of the file; 0 unless a byte 48 to 57 stands there or behind one byte 45; else 1 and the number that the maximal run of digits denotes, signed, as a 32-bit int, however many digits |
| `ScanBytes.OtherByteStops` | sad_profile/fat_file.c:245-249 | Any other byte that is no digit and no minus sign, where a number should stand, gives status 0 and stays unread |
| `ScanBytes.ReadBackWhen` | sad_profile/fat_file.c:234-254 | Ints above INT_MIN printed between separators without digits and minus signs are read back whole, and then -1, if and only if the separators hold only bytes 9, 10, 13 and 32; else a scan answers 0 |
| `FileStream.PiecesJoin` | sad_profile/fat_file.c:194-202 | Two reads take, together and in order, what one read of all the items takes, if and only if their 32-bit byte counts add up to less than 2^32 or the one read reaches the end of the file |
| `FileStream.ReadTwice` | sad_profile/fat_file.c:194-202 | So for two calls, one after the other, on the open file |
| `FileStream.OneReadTakesNothing` | sad_profile/fat_file.c:196-198 | Otherwise one read may take nothing: 2^32 items of one byte, where two reads of half as many take the file |
| `FileStream.ReadsNumeral` | sad_profile/fat_file.c:250-251 | Scanning the numeral of any n below 2^31 accumulates n with no step wrapping |
| `FileStream.ReadsInt` | sad_profile/fat_file.c:245-254 | Any printed int above INT_MIN is scanned back, up to the first byte that is no digit |
| `FileStream.PrintedIsReadBack` | sad_profile/fat_file.c:234-254 | Any list of ints above INT_MIN, printed with separators of bytes 9, 10, 13 and 32, is read back whole and then the scan answers -1 |
| `FileStream.SprintInt` | sad_profile/bare_malloc.c:67-73 | Writes exactly the decimal text at the output position and nothing else; the 12-byte scratch buffer suffices |
| `FileStream.ReverseDigits` | sad_profile/bare_malloc.c:70-72 | The digits, last first, for every magnitude below 2^31 |
| `BareHeap.Heap.Malloc` | sad_profile/bare_malloc.c:21-27 | Answers the old break and advances it by the rounded size; nothing for size 0 |
| `BareHeap.BlocksApart` | sad_profile/bare_malloc.c:21-27 | Over any run of requests of at most 2^32 - 8 bytes, blocks are aligned, in order and disjoint, and none is below 0x81000000 |
| `BareHeap.Covers` | sad_profile/bare_malloc.c:23 | The rounded size covers the request if and only if that is at most 2^32 - 8: the mask is a 32-bit constant |
| `BareHeap.LeastMultiple` | sad_profile/bare_malloc.c:23 | Up to there it is the least multiple of eight that covers it |
| `BareHeap.BufferCovers` | sad_profile/fat_file.c:171 | The block of a file's buffer holds its size + 1 bytes, a 32-bit sum, if and only if the size is at most 2^32 - 9 |
| `Decimal.DivU10IsQuotient` | inc/string_lib/src/string_lib.c:39-50 | The shift-only quotient is n/10 for every 32-bit n |
| `Decimal.RemU10IsRemainder` | inc/string_lib/src/string_lib.c:57-60 | The table remainder is n mod 10 for every 32-bit n |
| `Decimal.Table` | inc/string_lib/src/string_lib.c:52-58 | Every scaled sum falls on a table slot that holds its digit |
| `Decimal.TableIsTight` | inc/string_lib/src/string_lib.c:52-58 | There is no slack: at 5 and at 4294967291 the sum is one short of the next slot, where the second would read another digit |
| `Decimal.DecDenotes` | inc/string_lib/src/string_lib.c:145-149 | The numeral has only bytes 48 to 57, denotes its number and has no leading zero |
| `Decimal.TextDenotes` | inc/string_lib/src/string_lib.c:123-161 | An int's text is a byte 45 if it is negative, and digits that denote its magnitude |
| `Decimal.Output.Digits` | inc/string_lib/src/string_lib.c:129-149 | The buffer loop writes the numeral and stays inside the 32-byte buffer |
| `Decimal.Output.PrintString` | inc/string_lib/src/string_lib.c:79-107 | Emits the string padded to the width and answers max(width, length) |
| `Decimal.Output.PrintInt` | inc/string_lib/src/string_lib.c:109-165 | Emits the decimal text of every int above INT_MIN, or of every unsigned, padded, the sign before zero padding, and answers max(width, length) |
| `PrintedText.PaddedBytes` | inc/string_lib/src/string_lib.c:79-107 | The padded text byte by byte: the string at the side asked for, and 48 or 32 on the other |
| `PrintedText.FormattedShows` | inc/string_lib/src/string_lib.c:109-165 | The printed text shows its int between blanks if and only if it is 0 or no zeros were put behind it: not the right-hand flag with the zero flag and a width beyond the text |
| `Profiler.TicksAlternate` | sad_profile/pmu_firmware/main.c:252-271 | With at most one event between entry reads, observed ticks strictly alternate, entry first, and none is missed |
| `Profiler.RunKnows` | sad_profile/pmu_firmware/main.c:252-326 | After any run in which no turn has two exits to see: call_count is the number of exits, record k (below 1000) is what was logged for call k, totals are the sums modulo 2^32, the state word tells the latest tick |
| `Profiler.NoCallIsLost` | sad_profile/pmu_firmware/main.c:252-326 | With counts that never decrease, call_count is the number of exits if and only if no turn sees more than one exit since the turn before |
| `Profiler.NoTickIsMissed` | sad_profile/pmu_firmware/main.c:252-273 | There are as many ticks as entries and exits if and only if no turn sees more than one of either |
| `Profiler.RecordNames` | sad_profile/pmu_firmware/main.c:257-286 | In any run the snapshot under record k is that of call e - 1, where e entries had been counted when exit k was seen |
| `Profiler.RecordIsOwn` | sad_profile/pmu_firmware/main.c:257-286 | So it is call k's own if and only if exactly k + 1 entries had been counted by then, or one turn saw entry and exit both |
| `Profiler.PacedRun` | sad_profile/pmu_firmware/main.c:252-326 | With at most one event between entry reads every record is its own call's cost, from the turn that first saw its entry to the turn that first saw its exit, and the state word says whether a call is open |
| `ProfilerWords.RecordWords` | sad_profile/pmu_firmware/main.c:278-316 | In the log of such a run words 32 + 9k to 40 + 9k are, modulo 2^32, the differences of the nine registers between the turn that first saw event 2k and the turn that first saw event 2k + 1 |
| `ProfilerWords.HeaderWords` | sad_profile/pmu_firmware/main.c:288-326 | Word 0 is the number of calls completed, word 1 tells whether one is open, words 2 to 10 are the sums of the true costs of metrics that never fall and stay below their widths |
| `Profiler.TurnsInOrder` | sad_profile/pmu_firmware/main.c:257-273 | The turn that sees call k's entry is not after the one that sees its exit, which is before the one that sees the next entry; at the first the call is open, at the second it is over |
| `Profiler.DeltaIsExact` | sad_profile/pmu_firmware/main.c:278-286 | A shown delta is the true one: always for cycles below 2^32; for the 31-bit counters if and only if no 2^31 boundary was crossed |
| `Profiler.SumWithinGrowth` | sad_profile/pmu_firmware/main.c:288-296 | With monotone counters the true costs of any number of calls add up to at most the counter's growth |
| `Profiler.TotalsWithinGrowth` | sad_profile/pmu_firmware/main.c:288-306 | With counters below their widths the logged total is that true sum, hence at most the growth |
| `Profiler.FastCallsAreLost` | sad_profile/pmu_firmware/main.c:252-273 | A run in which it is not: two calls between two reads are counted as one |
| `Profiler.Firmware.Poll` | sad_profile/pmu_firmware/main.c:252-326 | One turn in place equals the modelled turn on registers and log words |
| `Profiler.Firmware.WriteCall` | sad_profile/pmu_firmware/main.c:298-324 | Totals, a record while there is room, count and state, and no other word |
| `Profiler.Firmware.PollAll` | sad_profile/pmu_firmware/main.c:235-326 | Any number of turns in place equals the modelled run |
| `ElfWords.Stim.AddMemWord` | elf_to_slm.py:56-74 | One word step in place, with the program's mask of one bit per byte of width |
| `ElfWords.Stim.AddMem` | elf_to_slm.py:80-88 | The loop over a segment in place |
| `ElfWords.ParseBinaries` | elf_to_slm.py:167-206 | All wanted segments, bytes then zeros, in file order |
| `ElfWords.AlignClears` | elf_to_slm.py:58 | Masking the low bits of a power-of-two width rounds down to a multiple of it |
| `ElfWords.AddPuts` | elf_to_slm.py:80-88 | A segment added where there was nothing puts its bytes there and changes no other byte |
| `ElfWords.ParseIsImage` | elf_to_slm.py:167-206 | For every list of disjoint segments and widths 1, 2, 4 and 8 each byte of the map is the segment's byte, or 0 |
| `ElfWords.WidthsThatWork` | elf_to_slm.py:69 | Among power-of-two widths this holds for all disjoint segments if and only if the width is at most 8 |
| `ElfWords.WideWordsLoseBytes` | elf_to_slm.py:69-70 | At every width from 16 a disjoint pair of segments loses a byte to the mask |
| `ElfWriters.ParseBounded` | elf_to_slm.py:167-206 | Whatever the segments, no word outgrows its width |
| `ElfWriters.HalvesRecombine` | elf_to_slm.py:130-149 | The two interleaved halves are 16-bit and together are the word |
| `ElfWriters.RowsDistinct` | elf_to_slm.py:134-135 | No two words share a row |
| `ElfWriters.WriteInterleaved` | elf_to_slm.py:121-149 | One line per key in each file, in key order, both at the key's row; ElfFiles.FilesHoldImage says what that puts where |
| `ElfFiles.FilesHoldImage` | elf_to_slm.py:121-149 | For disjoint segments the line of key 0x80000000 + 4r is at row r of both files, low half then high half are the image's four bytes there, lowest first; every aligned address without a line has four zero bytes |
| `ElfFiles.ImageIs` | elf_to_slm.py:167-206 | The image at an address is the byte of the segment that lies in an area, if there are areas, and has a byte there |
| `ElfFiles.ImageIsZero` | elf_to_slm.py:167-206 | And 0 where there is no such segment |
| `ElfFiles.ParseKeys` | elf_to_slm.py:167-206 | The map has exactly the words in which such a segment, overlapping others or not, has a byte or one of the zeros up to its size in memory |
| `ElfWriters.LexOrder` | elf_to_slm.py:245 | As strings, a key sorts before a larger one if and only if it is at most that one's leading digits |
| `ElfWriters.StringOrderIsNumeric` | elf_to_slm.py:245-246 | String-sorted keys increase if and only if no key exceeds the leading digits of a larger one; so whenever all have equally many digits |
| `ElfWriters.GenStimBin` | elf_to_slm.py:243-253 | On such keys the writer ends and emits the contiguous zero-filled image from the first address to the last |
| `ElfWriters.FlatBinaryIsImage` | elf_to_slm.py:234-253 | For disjoint segments that image is the segments' bytes |
| `ElfWriters.TenBeforeNine` | elf_to_slm.py:245-250 | Addresses 9 and 10 sort as 10, 9, and counting up from 10 never meets 8 |
| `ElfWriters.AllGapsEndWhen` | elf_to_slm.py:245-250 | Of string-sorted keys, every filling loop ends if and only if no key exceeds the leading digits of a larger one |
| `Find3.CountsAgree` | mempol/sdvb/common/c/fFind3.c:16-30 | The row-major count equals the column-major one |
| `Find3.RoomFor` | mempol/sdvb/common/c/fFind3.c:32-37 | A row is left for every nonzero cell that is reached |
| `Find3.ListIs` | mempol/sdvb/common/c/fFind3.c:28-40 | The list is every nonzero cell, each once, in column-major order |
| `Find3.Find3` | mempol/sdvb/common/c/fFind3.c:7-43 | The result has exactly one row per nonzero cell, with its column, row and value, in that order; no write passes the rows counted |
| `Find3.RowIsCell` | mempol/sdvb/common/c/fFind3.c:28-40 | Row k of the result, words 3k to 3k + 2, is column j, row i and value of a nonzero cell, word i*width + j |
| `Find3.CellIsInRow` | mempol/sdvb/common/c/fFind3.c:28-40 | Every nonzero cell has such a row |
| `Find3.RowsInOrder` | mempol/sdvb/common/c/fFind3.c:28-40 | Rows are in order of column, and of row within a column |

## Left out

- The shutdown path that writes a resume without checking ACK (mempol/pmu_bench.c:822-839) is outside the ownership discipline; modelled runs end before it.
- The interrupt log (types and cycle stamps), breadcrumb counters, mcycle padding and work statistics, the timeout warning of the setup code.
- The PLIC and the overflow latch: interrupts are delivered at any moment, claims answer anything (PauseProgress counts the steps of claims that answer the firmware's interrupt). The saving and restoring of registers around the handler is assumed to preserve them; mret is "pc := mepc".
- Traffic between the firmware's reading of a counter and its reset is lost in the original and does not appear; a charge takes one reading as its input.
- Debug printing, UART, register drivers, Efuse generation, address extraction scripts, the long case-study instruction arrays.
- Instruction memory and data memory are separate in `Rv32i`. The writes by which the host loads programs and data, and the reads that check them, come before a run and appear only as its initial memory and as the initial error count of `BubbleSortHost.SettledErrors`.
- BubbleSortProgram.ProgramSortsWhen: asks that the words a page below do not run past the end of the address space; no base from 4096 on makes them.
- BubbleSortProgram.PrefixRight: lengths above 0x3FFFFE00 are not covered, because 4*(len-1) then comes within 2048 of 2^32, where sign extension meets wrap-around; no array that long fits the memory.
- BubbleSort.BubbleSortC: the empty array is not covered, because len - 1 wraps in the original and the loop runs out of the array.
- Fat16Theorems.RunIsSound: asks for names that a live entry can have (first byte neither 0x00 nor 0xE5); Fat16Theorems.KeepsWellFormed says what others do.
- FatFile.Load: asks for what makes the copy loop end inside its buffer; FatCopy.CopyWorksWhen says that this is exactly it. Buffers are objects of their own: a block too small for its buffer (BareHeap.BufferCovers), or one that runs from the heap into the disk image, is not represented. What the original leaves uninitialised when a chain is too short is arbitrary here too.
- FatFile.ResolvePath: asks that the search of a directory it enters ends; FatPath.SearchEndsWhen says exactly when. The check that a volume has been registered at all is left out.
- FileStream.Stream.Read: asks for a positive item size, because the original divides by it. Null pointers, fat_ftell, fat_feof and fat_fclose are left out; they only read or clear the position.
- FileStream.Stream.Seek: offsets are unbounded; overflow of a 64-bit long is not represented.
- FileStream.SprintInt: INT_MIN is left out, because its negation overflows; so it is in Decimal.Output.PrintInt. The other conversions of bare_sprintf and the format loops of qprint only select among what is modelled. Hexadecimal output is left out.
- The "%f" branch of fat_fscanf and all other floating-point code.
- Profiler.Firmware.Poll: the two counter reads and the metrics are inputs of a turn; log words are counted from the log's base, and no bound of the scratch-pad memory is claimed for them.
- ElfWriters.GenStimBin: the sorted keys are an input, assumed in the order of Python's string sort; the text formatting of the .slm files is left out, and so are the writers that differ only in it.
- Find3.Find3: cells are real numbers; NaN and negative zero do not occur.
