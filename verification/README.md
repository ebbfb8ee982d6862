# Verified models of the co-simulation and generator scripts

This project models, in Dafny 4.11, the parts of the repository that compute something a wrong
answer could hide in, and proves what they promise for every input. `dafny verify dfyconfig.toml`
checks all of it.

| files | what they model |
|---|---|
| `TraceCsv`, `TraceCompare`, `Replay`, `TraceLimits`, `LogReaders`, `CompareIssLog` | the co-simulation checker: two simulator logs become traces, the traces become files, and the comparator says PASSED or FAILED |
| `RenodeLog` | the converter that turns register dumps into register updates |
| `UserConfig` | reading and editing a configuration package through references between parameters |
| `RomGen`, `BootRom`, `MemSim` | the ROM image generators, the memhex pipeline and the simulation memory |
| `PlicAddrMap`, `Plic` | the address decoder generator, and the PLIC it builds |
| `CsrUpdater`, `CsrFields` | the edits of the CSR description tree, and the reset values of CSR fields |
| `SocketPackets`, `DebugRequest` | fixed-size messages over a stream that comes in pieces |
| `Sbrk`, `Batching` | the bare-metal heap, and the split of generator runs into batches |
| `Wrappers`, `PyText`, `Indices`, `Arithmetic` | an option type; the Python text operations the scripts use; the places that pass a test; products, quotients and powers of two |

## Main results

* **What PASSED means.** `CompareTraceCsv` returns, for any two traces, the verdict in closed form:
  how many changes matched, how many mismatches are counted, and when an ill-formed update ends the
  script. `PassedIff` reads PASSED off it: the update lists of the changes are equal, *or* those of
  trace 2 are a proper prefix and trace 2 ends on a change. `PassedOnAPrefix` gives two traces on
  which the second case happens.
* **End to end.** `CompareLogs` composes readers, filter, file and comparator: once log 2 reaches an
  `ecall` the second case is gone, PASSED holds exactly when the two logs have the same effective
  updates, and then both simulations end with the same registers.
* **Readers.** Both log readers equal one segmentation of the lines that count, stated by position; which
  lines count is stated by position, too (`ActiveByPosition`), whether or not every region ends.
* **Configuration edits.** `PutGet` covers whole lists of changes: every field reads the last value
  written through any field with the same root. `MixedPutGet` says what a field reads after lists that
  mix all three modes, chains that run in a circle included; `DefaultSetsRoot`, `StarSetsOneField` and
  `PlusCutsChains` say it for one change to any value, names of parameters included.
* **Encodings agree.** Two ROM generators emit one text, whose meaning is the little-endian image;
  the BSV functions decode every address through exactly one arm; the memory returns exactly the
  merged bytes.
* **Exact conditions.** `DecidesEqualityIff` (PASSED means equality with this trace 2 exactly when it
  does not end on a change), `ChecksNumbersIff` (the text comparison decides on numbers exactly when no
  register has two texts for one number), `RoundTripIff` (register dumps can be replayed exactly when no
  register comes back after an omission), `ReadBackIff` (a memory word is read back exactly when its lanes
  land apart), `IndicesInRangeIff` (decoder indices are in range exactly when no register is split),
  `SecondPassIff` (the second removal pass returns and is idle exactly when the condition is not null),
  `ConservesIffTiles` (field resets add up exactly when the fields tile the register),
  `UserConfig.ReadBackIff`, `CountsUpIff` (seeds count up from the start seed exactly when there is one batch
  to seed), `FixedSeedFailsIff`, `ExhaustedIff` (the heap is used up for good exactly when the requests,
  failed ones included, have reached its end), `LogDecidesIff`, `TerminatesIff`.

Dictionaries that the scripts mutate are fields of classes or local variables; in-place edits work on
arrays. Each such method is proved against a function, and the lemmas are about that function: what it
gives is stated by position, by key path or in plain arithmetic, too (`CheckByPosition`, `YieldedAt`,
`RunHolds`, `LineParts`, `WriteByPosition`, `UpdatedWhereBoth` and others). Automatic induction is
switched off for every lemma, so that each proof is the one written.

## Where the code and its description differ

* The comments of the comparator speak of checking what remains of the other trace; the early exit at
  `cva6/verif/sim/dv/scripts/instr_trace_compare.py:118-120` checks nothing of what remains of trace 1,
  and so accepts a shorter trace 2 that ends on a change. The model follows the code; `PassedOnAPrefix`
  gives such traces, and `DecidesEqualityIff` and `LogDecidesIff` say when nothing is missed.
* The help text of `--start_seed` says that later iterations count up from it
  (`cva6/verif/sim/cva6.py:798-802`); the code adds the batch index times the number of batches. The model
  follows the code; `SkipsSeeds` gives an input where they differ and `CountsUpIff` says when they agree.

## Model

| member | source | states |
|---|---|---|
| `PyText.SplitJoin` | cva6/verif/sim/dv/scripts/riscv_trace_csv.py:66 | splitting a cell undoes joining it, for every list without the separator, except that the empty list comes back as one empty string |
| `PyText.FormatParse` | cva6/verif/sim/dv/scripts/renode_log_to_trace_csv.py:110-111 | `int(s, 16)` reads back what `{:08x}` prints, for every integer, negative ones included |
| `PyText.FormatShape` | cva6/verif/sim/dv/scripts/renode_log_to_trace_csv.py:111 | `{:08x}` prints lower-case digits, behind a sign when there is one, in at least 8 places, and in more only when no zero leads |
| `PyText.DigitsInOrder` | Toooba/src_Core/BSV_Additional_Libs/BlueStuff/BlueUtils/MemSim.c:49-55 | the hexadecimal digits are 0 to 9, a to f and A to F, with the values 0 to 15 in this order |
| `PyText.BlanksIgnored` | cva6/verif/sim/dv/scripts/renode_log_to_trace_csv.py:110 | `int(s, 16)` ignores tabs, line ends, vertical tabs, form feeds and spaces at both ends |
| `PyText.Signs` | cva6/verif/sim/dv/scripts/renode_log_to_trace_csv.py:110 | a minus sign negates the number and a plus sign does not |
| `PyText.Prefixes` | cva6/verif/sim/dv/scripts/renode_log_to_trace_csv.py:110 | `0x` or `0X`, with at most one underscore behind it, changes nothing, and underscores between groups of digits do not count |
| `PyText.GroupsJoin` | cva6/verif/sim/dv/scripts/renode_log_to_trace_csv.py:110 | two texts joined by an underscore are digits in groups exactly when both are |
| `TraceCsv.RoundTrip` | cva6/verif/sim/dv/scripts/riscv_trace_csv.py:61-87 | a trace written and read back is the same trace, with "no update" turned into one empty update |
| `TraceCsv.RowOf` | cva6/verif/sim/dv/scripts/riscv_trace_csv.py:78-87 | each column holds the part it is named for, and the update cell splits into the updates |
| `TraceCsv.RiscvInstructionTraceCsv.WriteTraceEntry` | cva6/verif/sim/dv/scripts/riscv_trace_csv.py:78-87 | exactly one row is appended, the encoded entry |
| `TraceCsv.RiscvInstructionTraceCsv.ReadTrace` | cva6/verif/sim/dv/scripts/riscv_trace_csv.py:61-74 | one entry per row, in order |
| `TraceCompare.GprFile.CheckUpdateGpr` | cva6/verif/sim/dv/scripts/instr_trace_compare.py:234-251 | the loop returns and records what the recursive reading of the updates says, including the early 0 on an empty update and both ways of stopping the script |
| `TraceCompare.CheckByPosition` | cva6/verif/sim/dv/scripts/instr_trace_compare.py:234-251 | by position: the updates count up to the first empty one; the script stops exactly when one of them is no `rd:value` or a first value that is no number; the check returns 1 exactly when none is empty and one differs from what its register holds; and each register then holds the text of the last update to it |
| `TraceCompare.ChangesExact` | cva6/verif/sim/dv/scripts/instr_trace_compare.py:62-81 | the changes of a trace are its effective entries with their updates, in order, and a trace stops the script exactly when some entry does |
| `TraceCompare.MoveForward` | cva6/verif/sim/dv/scripts/instr_trace_compare.py:74-80 | trace 2 is advanced to its next change and no further, or to its end when there is none |
| `TraceCompare.FindMismatch` | cva6/verif/sim/dv/scripts/instr_trace_compare.py:88-105 | a mismatch is found exactly when the two update lists differ |
| `TraceCompare.PairUp` | cva6/verif/sim/dv/scripts/instr_trace_compare.py:74-117 | one change of trace 1 counts as matched exactly when trace 2 has a next change with the same updates, and that change is consumed |
| `TraceCompare.CountRemaining` | cva6/verif/sim/dv/scripts/instr_trace_compare.py:122-132 | the entries counted as left over in trace 2 start at its first unpaired change |
| `TraceCompare.PairAll` | cva6/verif/sim/dv/scripts/instr_trace_compare.py:62-121 | the loop over trace 1 with its break: what it leaves to be done with trace 2 is what the recursion has left |
| `TraceCompare.CompareInOrder` | cva6/verif/sim/dv/scripts/instr_trace_compare.py:62-132 | the loop and the final count compute the list recursion on the changes of the two traces |
| `TraceCompare.RestIsVerdict` | cva6/verif/sim/dv/scripts/instr_trace_compare.py:62-132 | that recursion has a closed form in matched and mismatched places, the leftover of the longer trace, and the exact condition for the script to stop |
| `TraceCompare.CompareTraceCsv` | cva6/verif/sim/dv/scripts/instr_trace_compare.py:51-132 | for any two traces the verdict is that closed form: matched count, mismatch count, aborted or not |
| `TraceCompare.VerdictInFull` | cva6/verif/sim/dv/scripts/instr_trace_compare.py:51-132 | the numbers of the verdict spelled out: the agreeing places are counted as a set, the others are mismatches, and what is left over counts from its first change in trace 2, or as one in trace 1 |
| `TraceCompare.PassedIff` | cva6/verif/sim/dv/scripts/instr_trace_compare.py:211-215 | PASSED exactly when no stop is reached and the changes are equal, or trace 2's are a proper prefix and trace 2 ends on a change; then the matched count is the number of changes of trace 2 |
| `TraceLimits.PassedOnAPrefix` | cva6/verif/sim/dv/scripts/instr_trace_compare.py:118-120 | two traces with different changes that get PASSED |
| `TraceLimits.DecidesEqualityIff` | cva6/verif/sim/dv/scripts/instr_trace_compare.py:108-132 | for a trace 2 that does not stop the script: PASSED means equal changes for every such trace 1 exactly when trace 2 does not end on a change |
| `Replay.IneffectiveKeepsRegisters` | cva6/verif/sim/dv/scripts/instr_trace_compare.py:234-251 | an entry for which the check returns 0 leaves every register's number as it was, missing registers reading 0 |
| `Replay.EffectiveEntriesSuffice` | cva6/verif/sim/dv/scripts/instr_trace_compare.py:234-251 | replaying only the effective entries of a well-formed trace gives the registers of the whole trace |
| `Replay.ReplayIsCheck` | cva6/verif/sim/dv/scripts/instr_trace_compare.py:234-251 | replaying a well-formed trace gives the very dictionary that the comparator has behind it |
| `Replay.SameChangesSameRegisters` | cva6/verif/sim/dv/scripts/instr_trace_compare.py:62-81 | traces with equal changes leave equal register files |
| `Replay.ChangeIff` | cva6/verif/sim/dv/scripts/instr_trace_compare.py:234-251 | for all updates that do not stop the script, the check returns 1 exactly when none is empty and some number changes or some number is spelled anew |
| `Replay.ChecksNumbersIff` | cva6/verif/sim/dv/scripts/instr_trace_compare.py:244-249 | the check decides on numbers, for all updates and dictionaries in some set of texts for each register, exactly when no register has two texts for one number |
| `Replay.RespelledOnce` | cva6/verif/sim/dv/scripts/instr_trace_compare.py:244-246 | for any two texts of one number, an update and a dictionary for which the check returns 1 and no number changes |
| `Replay.FixedWidthsChecked` | cva6/verif/sim/dv/scripts/instr_trace_compare.py:244-249 | lower-case digits of one width for each register are such texts, whatever the widths of the other registers |
| `Replay.EffectiveIffMoves` | cva6/verif/sim/dv/scripts/instr_trace_compare.py:62-81 | in a whole trace of such texts the effective entries are exactly those that change a number |
| `TraceLimits.EffectiveWithoutMoving` | cva6/verif/sim/dv/scripts/instr_trace_compare.py:244-246 | the smallest example: the text 01 after the text 1 |
| `LogReaders.SpikeTrampolineCut` | cva6/verif/sim/cva6_spike_log_to_trace_csv.py:132-139 | a trampoline is cut out from its first to its last line, or to the end of the log when it does not end, and all lines before it count |
| `LogReaders.SpikeByPosition` | cva6/verif/sim/cva6_spike_log_to_trace_csv.py:127-139 | for every log exactly the lines that are inside no trampoline and open none count, from any line on |
| `LogReaders.VerilatorStart` | cva6/verif/sim/verilator_log_to_trace_csv.py:127-132 | nothing counts before the line that ends the trampoline, and that line is processed |
| `LogReaders.VerilatorDebugCut` | cva6/verif/sim/verilator_log_to_trace_csv.py:134-142 | a debug region is cut out from its first to its last line, or to the end of the log when it does not end, and all lines before it count |
| `LogReaders.ActiveByPosition` | cva6/verif/sim/verilator_log_to_trace_csv.py:121-142 | for every log exactly the lines from the one that ends the trampoline on that are inside no debug region and open none count; and the same for Spike's trampolines |
| `LogReaders.CoreLinesExact` | cva6/verif/sim/cva6_spike_log_to_trace_csv.py:141-166 | entries come from exactly the instruction lines with no `ecall` before them |
| `LogReaders.CoreLinesAscend` | cva6/verif/sim/cva6_spike_log_to_trace_csv.py:141-166 | in log order |
| `LogReaders.NextIllegal` | cva6/verif/sim/cva6_spike_log_to_trace_csv.py:168-173 | the point where an entry is closed as illegal is the first illegal line before the next instruction |
| `LogReaders.UpdateSplits` | cva6/verif/sim/cva6_spike_log_to_trace_csv.py:179-181 | an update splits into the register and the whole value of its commit line |
| `LogReaders.YieldedAt` | cva6/verif/sim/verilator_log_to_trace_csv.py:144-185 | item by item, an entry has the address, text and code of its instruction, one update for each commit line before the next instruction or illegal line, which splits into the register and the value of that line, the mode of the last of them, and the illegal flag; an `ecall` has none of these |
| `LogReaders.EcallComesLast` | cva6/verif/sim/verilator_log_to_trace_csv.py:153-155 | when the lines that count reach an `ecall`, the last entry is that `ecall`, with no update and not illegal |
| `LogReaders.Absorb` | cva6/verif/sim/verilator_log_to_trace_csv.py:144-185 | one turn of the INSTR/EFFECT part of the loop keeps the total output of the reader |
| `LogReaders.ResumeIsSegments` | cva6/verif/sim/verilator_log_to_trace_csv.py:144-189 | from any state of that machine, what it still yields is the entry in hand completed and then the segmentation of the rest |
| `LogReaders.ReadSpikeTrace` | cva6/verif/sim/cva6_spike_log_to_trace_csv.py:127-186 | the reader yields the segmentation of the lines outside trampolines: one entry per instruction line, its commit lines up to the next instruction or illegal line, its illegal flag |
| `LogReaders.ReadVerilatorTrace` | cva6/verif/sim/verilator_log_to_trace_csv.py:121-189 | the same segmentation, of the lines after the trampoline and outside debug regions |
| `CompareIssLog.ProcessSimLog` | cva6/verif/sim/cva6_spike_log_to_trace_csv.py:205-226 | the file holds exactly the entries with an update and those named `wfi` or `ecall`, in order, and the count returned is the number of rows |
| `CompareIssLog.WriteKept` | cva6/verif/sim/verilator_log_to_trace_csv.py:209-230 | the loop over the yielded entries writes exactly the kept ones |
| `CompareIssLog.ActiveIs` | cva6/verif/sim/cva6_spike_log_to_trace_csv.py:132-139 | the lines that count, by position, for the reader that belongs to the simulator |
| `CompareIssLog.KeptExactly` | cva6/verif/sim/cva6_spike_log_to_trace_csv.py:219-221 | the kept entries are, in order, exactly those with an update and those named `wfi` or `ecall`, or all of them in a full trace |
| `CompareIssLog.FilterLosesNothing` | cva6/verif/sim/verilator_log_to_trace_csv.py:216-223 | dropping entries without updates, and the trip through the file, keep the list of effective updates |
| `CompareIssLog.CommitUpdate` | cva6/verif/sim/cva6_spike_log_to_trace_csv.py:177-182 | every update that a commit line makes is well formed and free of the cell separator, and splits into the register and the value |
| `CompareIssLog.ComparedTrace` | cva6/verif/sim/cva6.py:631-649 | the trace that reaches the comparator has exactly the effective updates of the log and never stops the script |
| `CompareIssLog.EcallEndsQuietly` | cva6/verif/sim/cva6_spike_log_to_trace_csv.py:151-152 | a log that reaches an `ecall` gives a trace that does not end on a change |
| `CompareIssLog.CompareLogs` | cva6/verif/sim/cva6.py:625-650 | for any two logs: the exact meaning of PASSED, its matched count, its collapse to equality of the effective updates when log 2 reaches an `ecall`, and then equal final registers |
| `TraceLimits.LogDecidesIff` | cva6/verif/sim/cva6.py:625-650 | for any log 2: PASSED means equal effective updates for every log 1 exactly when the trace of log 2 does not end on a change |
| `RenodeLog.AbiNamesDiffer` | cva6/verif/sim/dv/scripts/renode_log_to_trace_csv.py:19-52 | the table gives no two registers the same name |
| `RenodeLog.AbiNamesAre` | cva6/verif/sim/dv/scripts/renode_log_to_trace_csv.py:19-52 | the ABI names of the 32 registers, in order |
| `RenodeLog.DumpNamesAre` | cva6/verif/sim/dv/scripts/renode_log_to_trace_csv.py:106-107 | the dump names of the 32 registers, in order |
| `RenodeLog.NamesAre` | cva6/verif/sim/dv/scripts/renode_log_to_trace_csv.py:106-111 | register x has the names in place x of the two columns |
| `RenodeLog.PairsExact` | cva6/verif/sim/dv/scripts/renode_log_to_trace_csv.py:88-90 | a dump is read exactly when no name is left without a value, and then each name has its last value |
| `RenodeLog.ComputeDifference` | cva6/verif/sim/dv/scripts/renode_log_to_trace_csv.py:93-111 | the emitted updates are those of the registers whose texts differ, in register order, or an exception |
| `RenodeLog.DifferenceExact` | cva6/verif/sim/dv/scripts/renode_log_to_trace_csv.py:93-111 | one update for each register that both dumps list with different texts, in the order of the table, which splits into its ABI name and its number in 8 digits; an exception exactly when one of the values is no number |
| `RenodeLog.ProcessRenodeSimLog` | cva6/verif/sim/dv/scripts/renode_log_to_trace_csv.py:66-122 | the loop computes the run of the dumps up to the `ecall`, exceptions included |
| `RenodeLog.RunHolds` | cva6/verif/sim/dv/scripts/renode_log_to_trace_csv.py:74-119 | before an `ecall` the trace is one entry for each dump that differs from the one before, in order, with its difference and the PC of the one before |
| `RenodeLog.RunFails` | cva6/verif/sim/dv/scripts/renode_log_to_trace_csv.py:88-119 | the script fails exactly when some dump has an odd field, a changed value that is no number, or no PC |
| `RenodeLog.EcallEnds` | cva6/verif/sim/dv/scripts/renode_log_to_trace_csv.py:81-83 | nothing is added to the trace from an `ecall` on |
| `RenodeLog.ApplyDifference` | cva6/verif/sim/dv/scripts/renode_log_to_trace_csv.py:93-111 | applying one difference gives each differing register its new number and leaves the others alone |
| `RenodeLog.RoundTrip` | cva6/verif/sim/dv/scripts/renode_log_to_trace_csv.py:74-122 | after any number of lines, replaying what was emitted gives every register that the dumps list the number it has in the last dump, dumps that emit nothing included |
| `RenodeLog.RoundTripNamed` | cva6/verif/sim/dv/scripts/renode_log_to_trace_csv.py:74-122 | the same in the names of the table: the trace gives the register in place y of the ABI column the number of the dump column's, for all 32 |
| `RenodeLog.RoundTripIff` | cva6/verif/sim/dv/scripts/renode_log_to_trace_csv.py:93-96 | replaying gives the register's number after every dump of every log with a given pattern of dumps that list it, whatever the values, exactly when no dump lists it again after one that does not |
| `RenodeLog.LostAfterOmission` | cva6/verif/sim/dv/scripts/renode_log_to_trace_csv.py:93-96 | the shortest log that fails: the second dump lists ra as 1, the first does not list it, and the trace is empty |
| `UserConfig.Parse` | cva6/util/user_config.py:57-71 | values and line numbers of parameters and fields, the last line of a name winning |
| `UserConfig.ParamAt` | cva6/util/user_config.py:57-71 | the value and the line number of a parameter belong to the same line, the last one of that name |
| `UserConfig.FindRootDef` | cva6/util/user_config.py:94-101 | the loop returns the end of the chain of references, and ends because the unvisited parameters run out |
| `UserConfig.TerminatesIff` | cva6/util/user_config.py:94-101 | the chase leaves the parameters after some number of steps exactly when it does not come back to a visited one |
| `UserConfig.ReplaceCfg` | cva6/util/user_config.py:104-108 | one line changes: its prefix, name, separator and suffix stay, the cast is kept and the value replaced |
| `UserConfig.ReplaceParam` | cva6/util/user_config.py:111-113 | one line changes: its prefix, name, separator and suffix stay and the value is replaced |
| `UserConfig.ApplyChange` | cva6/util/user_config.py:28-42 | each mode edits the line of its target, and an unknown name edits nothing |
| `UserConfig.DeriveConfig` | cva6/util/user_config.py:15-44 | the lines written are the original ones with the changes applied in order, all located in the original; nothing is written after an exception |
| `UserConfig.EditedLines` | cva6/util/user_config.py:104-113 | after any list of changes a line differs from the original at most in its value, and only where a change wrote, with the last value written there |
| `UserConfig.LineParts` | cva6/util/user_config.py:118-151 | after any list of changes every line has the form, prefix, name, separator, cast and suffix it had |
| `UserConfig.LineWritten` | cva6/util/user_config.py:15-44 | and the text of the last change that edits it |
| `UserConfig.LineKept` | cva6/util/user_config.py:15-44 | and a line that no change edits stays whole |
| `UserConfig.SlotIs` | cva6/util/user_config.py:28-42 | which line a change edits: the last one of the field for `*`, of the parameter for `+`, and otherwise of the parameter at the end of the field's chain, or of the field when it starts none |
| `UserConfig.EditedIff` | cva6/util/user_config.py:28-42 | nothing is written exactly when some change has no line to edit |
| `UserConfig.PutGet` | cva6/util/user_config.py:15-44 | after any list of default-mode changes to values that are no parameter names, each field keeps its cast and reads the last value written through a field with the same root, or its old value |
| `UserConfig.ReadBackIff` | cva6/util/user_config.py:74-91 | one default-mode change is read back exactly when the new value is no parameter name |
| `UserConfig.EditsKeepAcyclic` | cva6/util/user_config.py:94-101 | such changes never make a chain of references run in a circle |
| `UserConfig.StarSetsOneField` | cva6/util/user_config.py:29-31 | `*field` with any new value sets that field, which then reads the end of the chain of the value, and leaves every other field as it was |
| `UserConfig.PlusCutsChains` | cva6/util/user_config.py:32-34 | `+param` with any new value changes exactly the fields whose chain passes through that parameter: they read the end of the chain of the value, or never return when it leads back to the parameter |
| `UserConfig.DefaultSetsRoot` | cva6/util/user_config.py:35-42 | a default-mode change to any value sets exactly the fields with the same root (or the field alone when it has none): they read the end of the chain of the value, or never return when that is this very root |
| `UserConfig.Redirected` | cva6/util/user_config.py:94-101 | where every chain ends after any parameter gets any value |
| `UserConfig.HopsStep` | cva6/util/user_config.py:97-99 | each step of the chase goes from a parameter to its value, and nowhere from anything else |
| `UserConfig.EndOfIff` | cva6/util/user_config.py:94-101 | the chase returns a value exactly when the references lead there and it is no parameter name |
| `UserConfig.EditThenParse` | cva6/util/user_config.py:57-113 | after any list of changes in any modes to any values, parsing the new file gives the old dictionaries with the last value written to each line |
| `UserConfig.MixedPutGet` | cva6/util/user_config.py:15-44 | after any list of changes in all three modes to values that are no parameter names, a field keeps its cast and reads the last value written to its own line, else the last value written to the first written parameter on its chain, else its old value; the chase for it ends exactly when something was written there or it ended before |
| `UserConfig.ReadAfterIs` | cva6/util/user_config.py:94-101 | the written parameter that decides is the one with the fewest steps from the field, and there is none exactly when no place on the chain was written, chains that run in a circle included |
| `UserConfig.RootAfter` | cva6/util/user_config.py:94-101 | after such changes a chain ends at its first written parameter, or where it ended before |
| `RomGen.ReadBin` | cva6/corev_apu/bootrom/gen_rom.py:84-94 | the image is a prefix, the rest is zero, and the padding is the least to a multiple of 8 |
| `RomGen.GenerateH` | cva6/corev_apu/bootrom/gen_rom.py:96-110 | the C words in order, each with its bytes reversed |
| `RomGen.GenerateSv` | cva6/corev_apu/bootrom/gen_rom.py:112-126 | reversing the whole image and cutting it up emits the literals from the last word to the first |
| `RomGen.GenerateDebugSv` | cva6/corev_apu/riscv-dbg/debug_rom/gen_rom.py:123-134 | walking the words backwards and reversing their halves emits the same literals |
| `RomGen.TextShapes` | cva6/corev_apu/bootrom/gen_rom.py:102-120 | every C word is 8 lower-case digits, and every literal two times 8 of them with an underscore between |
| `RomGen.RomAgreement` | cva6/corev_apu/bootrom/gen_rom.py:96-126 | for every image, SystemVerilog word k is the little-endian number of bytes 8k..8k+7 and equals C word 2k plus 2^32 times C word 2k+1 |
| `BootRom.ResizeRom` | Toooba/src_Testbench/SoC/Boot_ROM_Generator/gen_bootrom.cc:253-255 | the image is a prefix, the rest is zero, and the padding is the least to a multiple of 0x1000 |
| `BootRom.PrintWord` | Toooba/src_Testbench/SoC/Boot_ROM_Generator/gen_bootrom.cc:261-263 | the four bytes are printed from the last to the first |
| `BootRom.PrintedShapes` | Toooba/src_Testbench/SoC/Boot_ROM_Generator/gen_bootrom.cc:261-263 | every printed word is 8 lower-case digits |
| `BootRom.PrintRom` | Toooba/src_Testbench/SoC/Boot_ROM_Generator/gen_bootrom.cc:257-265 | the note line and then one line for each word, in order |
| `BootRom.GenerateArms` | Toooba/src_Testbench/SoC/Boot_ROM_Generator/Gen_BSV_fn_read_ROM.py:55-72 | the two lists of case arms, for any memhex file |
| `BootRom.WordsByPosition` | Toooba/src_Testbench/SoC/Boot_ROM_Generator/Gen_BSV_fn_read_ROM.py:63-71 | the words are the lines that do not start with `@`, in order |
| `BootRom.ArmsByPosition` | Toooba/src_Testbench/SoC/Boot_ROM_Generator/Gen_BSV_fn_read_ROM.py:67-71 | the arms of a function are exactly those of the words at the addresses 4k that are, or are not, multiples of 8, in increasing order |
| `BootRom.ArmsDecode` | Toooba/src_Testbench/SoC/Boot_ROM_Generator/Gen_BSV_fn_read_ROM.py:67-71 | each list answers exactly the addresses that belong to it, each with one arm and its word |
| `BootRom.RomFunctionsCorrect` | Toooba/src_Testbench/SoC/Boot_ROM_Generator/Gen_BSV_fn_read_ROM.py:87-105 | for every ROM the two functions return the little-endian word of its bytes at each multiple of 4 inside it, and the default elsewhere |
| `BootRom.OneArmEach` | Toooba/src_Testbench/SoC/Boot_ROM_Generator/Gen_BSV_fn_read_ROM.py:55-72 | each such address has exactly one arm in exactly one function |
| `BootRom.WriteHexToBuff` | Toooba/src_Core/BSV_Additional_Libs/BlueStuff/BlueUtils/MemSim.c:95-102 | the numbers of a line land in the buffer from its end to its start, and no other byte changes |
| `BootRom.LineByteIs` | Toooba/src_Core/BSV_Additional_Libs/BlueStuff/BlueUtils/MemSim.c:95-102 | two digits of the line are one number, the first of them the higher digit |
| `BootRom.PrintedParses` | Toooba/src_Core/BSV_Additional_Libs/BlueStuff/BlueUtils/MemSim.c:95-102 | parsing a printed word gives its bytes back |
| `MemSim.LaneFor` | Toooba/src_Core/BSV_Additional_Libs/BlueStuff/BlueUtils/MemSim.c:240-244 | the lane that decides a byte is the highest enabled one that lands on it |
| `MemSim.Mem.Write` | Toooba/src_Core/BSV_Additional_Libs/BlueStuff/BlueUtils/MemSim.c:225-252 | every byte of the memory is what its deciding lane carries, or what it was |
| `MemSim.Mem.Read` | Toooba/src_Core/BSV_Additional_Libs/BlueStuff/BlueUtils/MemSim.c:197-223 | the little-endian number of the bytes from the address on, wrapping |
| `MemSim.AddressIs` | Toooba/src_Core/BSV_Additional_Libs/BlueStuff/BlueUtils/MemSim.c:213 | lane i goes to (address + i), less 2^64 when that is reached, modulo the size |
| `MemSim.ReadByPosition` | Toooba/src_Core/BSV_Additional_Libs/BlueStuff/BlueUtils/MemSim.c:211-214 | byte i of a read is the one at (address + i) modulo the size |
| `MemSim.WriteByPosition` | Toooba/src_Core/BSV_Additional_Libs/BlueStuff/BlueUtils/MemSim.c:240-244 | after a write a byte is that of the highest enabled lane i with (address + i) modulo the size equal to its place, in plain quotients and remainders, and what it was when there is none |
| `MemSim.WriteStaysInside` | Toooba/src_Core/BSV_Additional_Libs/BlueStuff/BlueUtils/MemSim.c:240-244 | a write inside the memory leaves every byte outside its 8 alone |
| `MemSim.ReadElsewhere` | Toooba/src_Core/BSV_Additional_Libs/BlueStuff/BlueUtils/MemSim.c:197-252 | a read clear of those 8 bytes gives what it gave before the write |
| `MemSim.AllApartIff` | Toooba/src_Core/BSV_Additional_Libs/BlueStuff/BlueUtils/MemSim.c:242 | without 64-bit wrap the 8 lanes land on 8 different bytes exactly when the memory has at least 8 |
| `MemSim.ReadAfterWrite` | Toooba/src_Core/BSV_Additional_Libs/BlueStuff/BlueUtils/MemSim.c:197-252 | wherever the lanes land on different bytes, a read after a write returns exactly the enabled new lanes and the other old bytes |
| `MemSim.ReadBackIff` | Toooba/src_Core/BSV_Additional_Libs/BlueStuff/BlueUtils/MemSim.c:197-252 | every word written with all lanes enabled is read back, at an address, exactly when the 8 lanes land on different bytes there |
| `MemSim.FullWordRoundTrip` | Toooba/src_Core/BSV_Additional_Libs/BlueStuff/BlueUtils/MemSim.c:197-252 | without 64-bit wrap every word is read back exactly when the memory has at least 8 bytes |
| `MemSim.WritesCommute` | Toooba/src_Core/BSV_Additional_Libs/BlueStuff/BlueUtils/MemSim.c:225-252 | writes that touch no common byte can be swapped |
| `PlicAddrMap.AddrMap.AddEntries` | cva6/corev_apu/rv_plic/rtl/gen_plic_addrmap.py:42-56 | one port and its entries are appended, register by register |
| `PlicAddrMap.AddrMap.AddPieces` | cva6/corev_apu/rv_plic/rtl/gen_plic_addrmap.py:49-54 | the loop up to the ceiling emits the pieces that are left when access widths are taken off one at a time |
| `PlicAddrMap.SlicesCover` | cva6/corev_apu/rv_plic/rtl/gen_plic_addrmap.py:46-56 | the entries of a register follow one another, none is wider than the bus, all but the last are full, and their widths add up to the register's |
| `PlicAddrMap.SlicesAt` | cva6/corev_apu/rv_plic/rtl/gen_plic_addrmap.py:49-56 | entry m of a register is m access widths behind its address and as wide as what is left, up to the access width; there are as many as the ceiling says |
| `PlicAddrMap.BlockAt` | cva6/corev_apu/rv_plic/rtl/gen_plic_addrmap.py:44-56 | the entries of register i stand behind those of the registers before it |
| `PlicAddrMap.AddrMap.EmitArms` | cva6/corev_apu/rv_plic/rtl/gen_plic_addrmap.py:94-122 | the counters of both case statements give each entry the index it has among entries of its name in a row |
| `PlicAddrMap.ArmsByPosition` | cva6/corev_apu/rv_plic/rtl/gen_plic_addrmap.py:110-120 | an arm has the address, name and width of its entry, and for index the number of entries of its name right before it |
| `PlicAddrMap.WritableByPosition` | cva6/corev_apu/rv_plic/rtl/gen_plic_addrmap.py:96-97 | the write decoder goes through the entries that are not read-only, in order |
| `PlicAddrMap.CountedFromZero` | cva6/corev_apu/rv_plic/rtl/gen_plic_addrmap.py:110-120 | the arms of a port carry the indices 0, 1, 2, ... |
| `PlicAddrMap.IndicesInRangeIff` | cva6/corev_apu/rv_plic/rtl/gen_plic_addrmap.py:42-120 | all arms of a port select an index below its declared count exactly when none of its registers is split, or there is none |
| `Plic.ArmAt` | cva6/corev_apu/rv_plic/rtl/gen_plic_addrmap.py:110-120 | in every map of unsplit registers with distinct names, index j of port k has its arm, with its address |
| `Plic.ArmsOf` | cva6/corev_apu/rv_plic/rtl/gen_plic_addrmap.py:110-120 | and there are no other arms |
| `Plic.DecodersAgree` | cva6/corev_apu/rv_plic/rtl/gen_plic_addrmap.py:94-120 | the write decoder has exactly the arms of the read decoder that belong to writable ports |
| `Plic.Clog2Least` | cva6/corev_apu/rv_plic/rtl/gen_plic_addrmap.py:10-11 | the logarithm is the least k with 2^k at least x |
| `Plic.GeneratePlic` | cva6/corev_apu/rv_plic/rtl/gen_plic_addrmap.py:151-195 | the five calls build the two decoders |
| `Plic.PlicPorts` | cva6/corev_apu/rv_plic/rtl/gen_plic_addrmap.py:160-193 | the five ports: names, which of them is read-only, counts, addresses of all registers, and widths |
| `Plic.PlicWindows` | cva6/corev_apu/rv_plic/rtl/gen_plic_addrmap.py:160-193 | all mapped 4-byte windows are aligned, disjoint and below 2^32 |
| `Plic.PlicArm` | cva6/corev_apu/rv_plic/rtl/gen_plic_addrmap.py:185-193 | every arm selects an index below the declared count of its port, at the address of that register |
| `Plic.PlicArmsApart` | cva6/corev_apu/rv_plic/rtl/gen_plic_addrmap.py:160-193 | two arms select different registers and answer disjoint windows |
| `CsrUpdater.CsrRecursiveUpdate` | cva6/config/gen_from_riscv_config/scripts/libs/csr_updater.py:5-22 | the loop merges key by key, replaces `rv32` whole, and adds no key |
| `CsrUpdater.UpdatedWhereBoth` | cva6/config/gen_from_riscv_config/scripts/libs/csr_updater.py:15-22 | at a path of both trees with no `rv32` before its end the result holds what the update holds, unless both hold dicts there; then, too, at an `rv32`, and otherwise a dict with the keys of the original |
| `CsrUpdater.UpdatedElsewhere` | cva6/config/gen_from_riscv_config/scripts/libs/csr_updater.py:15-22 | a path that the update leaves holds what it held, and a path that the original does not have is not added |
| `CsrUpdater.UpdateIdempotent` | cva6/config/gen_from_riscv_config/scripts/libs/csr_updater.py:5-22 | the same update twice is the same update once |
| `CsrUpdater.RemoveKeysRecursive` | cva6/config/gen_from_riscv_config/scripts/libs/csr_updater.py:65-77 | the walk raises exactly on the trees where some value is wrongly asked for the sub-key, and otherwise removes the dicts that fit and cleans the others |
| `CsrUpdater.RemovedAt` | cva6/config/gen_from_riscv_config/scripts/libs/csr_updater.py:65-77 | a pass removes exactly the paths that lead through or to a dict that fits the exclusion, and keeps every value on the others |
| `CsrUpdater.FitsIs` | cva6/config/gen_from_riscv_config/scripts/libs/csr_updater.py:69-74 | when a dict fits, by the values behind its key and sub-key, missing ones counting as null |
| `CsrUpdater.WalksIff` | cva6/config/gen_from_riscv_config/scripts/libs/csr_updater.py:70 | the walk raises exactly when some dict below the top has a scalar behind the key while a sub-key is asked for |
| `CsrUpdater.OnePassCleans` | cva6/config/gen_from_riscv_config/scripts/libs/csr_updater.py:65-79 | with a condition that is not null, one pass leaves no nested dict that fits |
| `CsrUpdater.WalksAfter` | cva6/config/gen_from_riscv_config/scripts/libs/csr_updater.py:65-80 | the second pass raises nothing on what the first one made of a tree, for any condition |
| `CsrUpdater.SecondPassIff` | cva6/config/gen_from_riscv_config/scripts/libs/csr_updater.py:79-80 | the second pass returns and changes nothing, on every tree that the first gets through, exactly when the condition is not null |
| `CsrFields.LowBitsIsRemainder` | cva6/config/gen_from_riscv_config/scripts/libs/utils.py:980-982 | masking with w ones is the remainder by 2^w |
| `CsrFields.ReturnFields` | cva6/config/gen_from_riscv_config/scripts/libs/utils.py:965-1126 | one field per named field and per reserved range, in order, each with its slice of the reset value |
| `CsrFields.RangesByPosition` | cva6/config/gen_from_riscv_config/scripts/libs/utils.py:965-1126 | the fields stand in the order of the items: one for a named field, and one for each range of a reserved list |
| `CsrFields.FieldIs` | cva6/config/gen_from_riscv_config/scripts/libs/utils.py:973-982 | a field has the ends of its range, the width between them, and the reset value divided by 2^lsb modulo 2^width |
| `CsrFields.ResetFits` | cva6/config/gen_from_riscv_config/scripts/libs/utils.py:973-982 | each field reset fits its width |
| `CsrFields.TilingConserves` | cva6/config/gen_from_riscv_config/scripts/libs/utils.py:1103-1126 | fields that tile the register, in any order, have resets that add up to its reset value mod 2^size |
| `CsrFields.ConservesIffTiles` | cva6/config/gen_from_riscv_config/scripts/libs/utils.py:973-1126 | they add up for every reset value exactly when they tile it |
| `SocketPackets.GetN` | Toooba/src_Core/BSV_Additional_Libs/BlueStuff/SocketPacketUtils/socket_packet_utils.c:214-251 | a valid result is the next whole message and consumes it; "no data" consumes nothing |
| `SocketPackets.PutN` | Toooba/src_Core/BSV_Additional_Libs/BlueStuff/SocketPacketUtils/socket_packet_utils.c:255-285 | an accepted message is on the wire whole, and a refused one not at all |
| `SocketPackets.ReceiveRun` | Toooba/src_Core/BSV_Additional_Libs/BlueStuff/SocketPacketUtils/socket_packet_utils.c:214-251 | over any number of calls the valid results concatenate to a prefix of the stream, cut at whole messages |
| `SocketPackets.SendRun` | Toooba/src_Core/BSV_Additional_Libs/BlueStuff/SocketPacketUtils/socket_packet_utils.c:255-285 | over any number of calls exactly the accepted messages are on the wire, in order |
| `DebugRequest.RequestRecv` | Toooba/src_Testbench/Top/C_Imported_Functions.c:597-696 | for every fragmentation the result is the 7 bytes little-endian with the status on top; each status and what was consumed by then |
| `DebugRequest.DecodersAgree` | Toooba/src_Testbench/Top/C_Imported_Functions.c:662-781 | the shift-and-mask decoder and the byte-wise decoder give the same op, address and data: byte 0, bytes 1 and 2, and bytes 3 to 6, lowest first |
| `Sbrk.Heap.Sbrk` | cva6/verif/bsp/syscalls.c:272-289 | the break always moves; the block is given exactly when the new break is below the stack and the heap end |
| `Sbrk.Heap.Run` | cva6/verif/bsp/syscalls.c:264-289 | over a whole run a call succeeds exactly when everything requested so far, failed calls included, fits |
| `Sbrk.BlockInHeap` | cva6/verif/bsp/syscalls.c:272-289 | every block of a run is inside the heap, below the stack of its call, and of the size asked for |
| `Sbrk.BlocksAreSafe` | cva6/verif/bsp/syscalls.c:272-289 | any two blocks of a run are increasing and disjoint, inside the heap and below the stack of their calls |
| `Sbrk.FailureIsFinal` | cva6/verif/bsp/syscalls.c:277 | after a call that does not fit in the heap every call fails |
| `Sbrk.ExhaustedIff` | cva6/verif/bsp/syscalls.c:272-289 | no later call can succeed, whatever is asked for and wherever the stack is, exactly when the requests so far, failed ones included, have reached the heap end |
| `Batching.DoSimulate` | cva6/verif/sim/cva6.py:267-296 | the commands of a test carry the start, the count and the seed of their batch, or the seed assertion fails |
| `Batching.GetIs` | cva6/verif/sim/cva6.py:52-70 | which seed is used: that of the rerun table, then the fixed one, for iteration 0 only, then the start seed plus the iteration, then the random one |
| `Batching.BatchesChain` | cva6/verif/sim/cva6.py:275-289 | the batches follow one another from 0 to the number of iterations, each of 1 to batch_size tests |
| `Batching.BatchesPartition` | cva6/verif/sim/cva6.py:275-289 | every test index is in exactly one batch |
| `Batching.SeedsDiffer` | cva6/verif/sim/cva6.py:52-70 | under a start seed any two batches that are not in the rerun table get different seeds |
| `Batching.StepIff` | cva6/verif/sim/cva6.py:52-70 | under a start seed the seeds of the batches that are not rerun go up by a given step exactly when that is the number of batches, or when every batch but the first is rerun |
| `Batching.CountsUpIff` | cva6/verif/sim/cva6.py:267-280 | they count up from the start seed, as the help text says, exactly when one batch holds all the iterations, or when every batch but the first is rerun |
| `Batching.SkipsSeeds` | cva6/verif/sim/cva6.py:280 | three iterations in batches of one from seed s: the second batch gets s + 3 |
| `Batching.FixedSeedFailsIff` | cva6/verif/sim/cva6.py:54-63 | under a fixed seed the assertion fails exactly when some batch but the first is not in the rerun table; with an empty table, exactly when there are more iterations than one batch holds, so never for the one iteration the command line allows |

## Left out

- Regular expressions: a log line carries the outcome of every pattern tried on it, with no exclusivity
  assumed, and a configuration line is given as the groups of its pattern; a new value is assumed to be
  read back by its line's pattern as it was written, and to hold no replacement escapes or cast of its own.
- Disassembly, pseudo-instructions, CSR columns and operands of trace entries, and all report text: the
  verdict does not depend on them.
- Python's `int(s, 16)` also takes digits and blanks outside ASCII; the model takes ASCII digits with
  blanks around them, a sign, `0x` and single underscores, as Python does.
- The entry objects of the readers are values in the model, so that one entry is shared between the
  reader and the writer until the next is read is not captured; the same holds for the nested
  dictionaries of the CSR tree, where the code shares sub-trees of the update with the result.
- CompareIssLog.CompareLogs: covers the Spike and Verilator-style readers; the ovpsim, sail and whisper
  converters are other scripts.
- RenodeLog.RoundTrip: speaks of registers that every dump lists; a register that a dump omits is not
  compared when it comes back, because the code compares with the last dump only. `RoundTripIff` gives
  the exact condition and `LostAfterOmission` a log that fails.
- UserConfig.PutGet: reads values as text; the conversion of the text and its cast to Python values
  (booleans, based numbers, arrays) is a function of the two and is not modelled. Changes of the other
  modes are in `MixedPutGet`.
- UserConfig.MixedPutGet: new values that are no parameter names; for any others `EditThenParse` gives the
  dictionaries and `EndOfIff` where a chain through them ends.
- MemSim.Mem.Read: at most 8 bytes, because more would write past the result variable in C.
- BootRom.WriteHexToBuff: lines of even length, because the loop reads the character before the first
  one of an odd line. File loading (`load_hex`) is not modelled.
- The debug ROM generator's way of reading the image; only its word order is modelled.
- Plic.Clog2Least: the logarithm is exact in the model, while `ceil(log(x, 2))` in floating point gives
  one more at some powers of two, 2^29 and 2^31 among them; the priority field is still at most 32
  bits wide there. The divisions of `addEntries` and of the batches are exact in the model, too.
- Verilog text of the PLIC decoder other than the address, port, index and width of each arm.
- CSR attributes other than bit ranges and reset slices, dictionaries as the excluded value, the removal
  of keys by index range, and the factoring of numbered registers.
- SocketPackets.GetN: connections that break in the middle; a broken connection is closed and the next
  one starts a new stream. A blocking call is taken to make progress.
- SocketPackets.PutN: the wait after a short write calls `select(1, ...)`
  (Toooba/src_Core/BSV_Additional_Libs/BlueStuff/SocketPacketUtils/socket_packet_utils.c:270), which
  watches no descriptor but 0 and so need not return; the model goes on to the next write.
- DebugRequest.RequestRecv: the end of the stream in the middle of a request. `read` then returns 0 for
  ever and the loop (Toooba/src_Testbench/Top/C_Imported_Functions.c:633-658) does not end; in the model
  the peer is silent only finitely often.
- The time-based stall warnings of the debug client and its logging.
- Sbrk.Heap.Run: non-negative increments, and no pointer overflow; `_brk` is not modelled.
- The special CSR test of `do_simulate`, and all process, file, socket and command-line plumbing.
- The out-of-order mode of the comparator, which does nothing.
