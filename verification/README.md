# Advent of Code solutions: a verified model of the core

This project models, in Dafny, the reusable logic of a Rust repository of
Advent of Code solutions, and proves properties of that model.

The main part is the **Intcode virtual machine** of the 2019 puzzles
(`y2019/src/computer.rs`). Its pieces are:

- a two-tier memory: a dense vector holding the loaded program, plus a sparse
  map for every address beyond it, where unwritten cells read as 0;
- an instruction decoder: the opcode is the raw cell `% 100`, and each further
  decimal digit is a parameter mode (Position, Immediate, Relative);
- a table of ten operations;
- a `run` loop. It executes instructions until Halt (`Finished`) or until an
  Input instruction finds the queue empty (`WaitingForInput`). A later `run`
  resumes at that Input instruction.

The earlier version of the machine (`src/y2019/computer.rs`) is modelled too.
It has a dense `i32` vector only, two modes, and no relative base. A
refinement proof shows that every run of it that does not abort is a run of
the newer machine.

Rust semantics are written out where they matter:

- `/` and `%` truncate toward zero.
- `as usize` reinterprets a negative value modulo 2^64.
- `i64` and `i32` arithmetic that overflows aborts, as a debug build does.
- Every panic of the source becomes an error value, for example `Err(Overflow)`.

A `run` call may never return. It is therefore modelled with a `fuel` bound
and an `OutOfFuel` outcome. Lemmas about fuel show that the bound only ever
cuts a run short.

Beside the machine, the project models smaller pieces of logic from other
puzzles, one module each:

- `Point3`: the three-dimensional points and boxes of `util/src/point3.rs`,
  with box overlap, union and volume.
- `Snafu`: the balanced base-5 numbers of `y2022/src/d25`.
- `Cycles`: `util/src/cycle_helpers.rs`, which combines periodic cycles into
  the first time they are all aligned.
- `Snailfish`: the pair trees of `y2021/src/d18`, with parsing, explode,
  split, reduction and magnitude.
- `SequencePrediction`: the difference pyramid of `y2023/src/d09`.
- `Lanternfish`: the fish population of `y2021/src/d06`.
- `Crates`: the crane moves of `src/y2022/d05` and the parsing of the drawing.
- `SignalWindow`: the sliding window of distinct characters of
  `src/y2022/d06`.
- `Password`: the digit rules of `y2019/src/d04`.
- `Brackets`: the bracket checker of `y2021/src/d10` and its scores.
- `Handheld`: the boot code interpreter of `y2020/src/d08` and its repair.
- `LensLibrary`: the hash and the 256 boxes of lenses of `y2023/src/d15`.
- `Bitmask`: the 36-bit masks of both parts of `y2020/src/d14`.
- `SeedRanges`: how `y2023/src/d05` cuts a range of seeds through one
  section of the almanac.
- `Workflows`: the part workflows of `y2023/src/d19`, one part at a time and
  as boxes of parts.

## Model

| member | source | states |
|---|---|---|
| RustInt.TMod | y2019/src/computer.rs:266-275 | Rust's `%`: dividend = divisor × quotient + remainder, with the remainder smaller than the divisor in size and carrying the dividend's sign |
| RustInt.AsUsize | y2019/src/computer.rs:314-322 | `as usize` of a 64-bit value: non-negative values stay the same, and a negative value v becomes 2^64 + v |
| IntcodeMemory.New | y2019/src/computer.rs:218-223 | a new memory keeps the program as the dense part, has no sparse entries, and is valid |
| IntcodeMemory.Write | y2019/src/computer.rs:232-238 | a write below the dense length updates the dense vector and nothing else; any other write inserts into the sparse map; the dense length never changes |
| IntcodeMemory.ReadNew | y2019/src/computer.rs:225-230 | reading a new memory gives the program's cell below the dense length and 0 at every other address |
| IntcodeMemory.ReadAfterWrite | y2019/src/computer.rs:225-238 | after a write, the written address reads back the value and every other address reads as before |
| IntcodeMemory.UnwrittenSparseIsZero | y2019/src/computer.rs:225-238 | an address past the program that no write touched still reads as 0, however many writes went elsewhere |
| IntcodeDecoder.ModeOfDigit | y2019/src/computer.rs:8-13 | a digit names a mode exactly when it lies in 0..modeCount, and the mode's digit is that digit |
| IntcodeDecoder.DecodeNonNegative | y2019/src/computer.rs:266-275 | for a non-negative cell: the opcode is raw % 100; parameter k takes its mode from decimal digit k+2, and Position when the digit is absent; decoding fails exactly when some digit is not a mode |
| IntcodeDecoder.NegativeModesFail | y2019/src/computer.rs:266-275 | a negative mode field always meets a negative digit, so decoding it fails |
| IntcodeDecoder.NegativeRawHasNoValidOpcode | y2019/src/computer.rs:266-275 | a negative cell never decodes to a table opcode: its modes fail, or its opcode byte is at least 157 |
| IntcodeDecoder.DecodeEncode | y2019/src/computer.rs:266-275 | encoding an opcode below 100 with a canonical mode list and then decoding gives both back |
| IntcodeDecoder.EncodeDecode | y2019/src/computer.rs:266-275 | decoding a non-negative cell and re-encoding the result gives the cell back, and the decoded mode list is canonical |
| IntcodeDecoder.DecodeModesWidens | src/y2019/computer.rs:212-221 | a mode field the two-mode decoder accepts decodes the same way with three modes |
| Intcode.LookupTable | y2019/src/computer.rs:27-166 | the table knows exactly the opcodes 1-9 and 99, and each entry's operation maps back to its opcode |
| Intcode.Checked | y2019/src/computer.rs:28-53 | an arithmetic result is accepted exactly when it fits in `i64`; otherwise the step aborts with Overflow |
| Intcode.FromPackedCells | y2019/src/computer.rs:250-260 | a loaded machine holds the value of each comma-separated piece in order, with pointer and base 0 and empty queues; a failed load names the first piece that is not an `i64` |
| Intcode.FromPackedRender | y2019/src/computer.rs:250-260 | loading the rendered text of a non-empty `i64` program gives the freshly loaded machine for that program |
| Intcode.Execute | y2019/src/computer.rs:27-166 | Finished comes only from Halt; WaitingForInput comes exactly from Input on an empty queue and changes nothing; only jumps move the pointer; only Input consumes input, the oldest value; only Output appends, and it appends the value it read |
| Intcode.SendInput | y2019/src/computer.rs:336-338 | queues the value behind those already waiting and changes nothing else |
| Intcode.DrainOutputs | y2019/src/computer.rs:360-364 | returns every output in emission order and leaves an empty buffer, changing nothing else |
| Intcode.WriteMemory | y2019/src/computer.rs:262-264 | the written cell reads back the value, every other cell is unchanged, and so is the rest of the machine |
| Intcode.StepContinues | y2019/src/computer.rs:299-310 | a continuing step leaves the pointer just past the instruction unless a jump moved it; the pointer always moves; input and output change only through Input and Output |
| Intcode.Step | y2019/src/computer.rs:280-310 | one trip round the loop of `run`: fetch, decode, execute, then advance the pointer unless the operation moved it; its contract is carried by Execute, StepContinues, StepStops and StepPreservesWellFormed |
| Intcode.Run | y2019/src/computer.rs:277-312 | `run`: a finished machine aborts, otherwise the loop of Step until a status, within the fuel; its properties are stated by RunFinishedIsFinal, RunLoopAppendsAndConsumes and FuelMonotone |
| Intcode.JumpMovesPointer | y2019/src/computer.rs:81-110 | a taken jump moves the pointer to its target; a jump that is not taken, or whose target is its own address, advances past the jump |
| Intcode.InputWithEmptyQueueSuspends | y2019/src/computer.rs:54-68 | an Input instruction with nothing queued stops the run with WaitingForInput and leaves the machine as it was, pointer included |
| Intcode.InputTakesOldest | y2019/src/computer.rs:54-68 | an Input instruction with a queued value stores the oldest value where its parameter points, drops it from the queue and advances by 2 |
| Intcode.HaltFinishes | y2019/src/computer.rs:151-161 | a step returns Finished exactly when the operation is Halt, and Halt marks the machine terminated |
| Intcode.FinishedCannotRun | y2019/src/computer.rs:277-278 | `run` on a terminated machine aborts |
| Intcode.FetchFaults | y2019/src/computer.rs:279-286 | a mode digit outside 0..2 aborts with BadMode, and an opcode outside the table aborts with UnknownOpcode |
| Intcode.ImmediateDestinationFaults | y2019/src/computer.rs:324-334 | writing through an Immediate parameter aborts |
| Intcode.RelativeAddressing | y2019/src/computer.rs:314-322 | a Relative parameter addresses its value plus the relative base |
| Intcode.ComparisonStoresBit | y2019/src/computer.rs:111-138 | Less-than and Equals store 1 when their comparison holds and 0 otherwise, and change only that cell and the pointer |
| Intcode.ArithmeticStores | y2019/src/computer.rs:27-52 | Add and Multiply write the sum or product of their two operands, an `i64`, to a destination that is not Immediate, advance the pointer by 4 and change nothing else |
| Intcode.ArithmeticOverflows | y2019/src/computer.rs:27-52 | when both operands read but their sum or product leaves the `i64` range, the step aborts with an overflow |
| Intcode.AdjustRelativeBaseAdds | y2019/src/computer.rs:139-150 | opcode 9 adds its operand to the relative base, advances by 2 and changes nothing else |
| Intcode.StepPreservesWellFormed | y2019/src/computer.rs:277-312 | from a well-formed machine, every step leads to a well-formed machine: pointer a `usize`; base, cells and queued values all `i64` |
| Intcode.LoadWellFormed | y2019/src/computer.rs:250-260 | a program of `i64` cells loads into a well-formed machine |
| Intcode.StepStops | y2019/src/computer.rs:299-305 | a step that returns Finished came from Halt and marks the machine terminated; one that returns WaitingForInput came from Input on an empty queue and left the machine unchanged |
| Intcode.FetchEncoded | y2019/src/computer.rs:279-286 | a cell encoding an operation's opcode with canonical modes fetches as that operation with those modes |
| Intcode.OneParam | y2019/src/computer.rs:288-297 | the parameter after the instruction takes its mode from the decoded list, defaulting to Position, and its value from the next cell |
| Intcode.ThreeParams | y2019/src/computer.rs:288-297 | the three parameters after the instruction take their modes from the decoded list, defaulting to Position, and their values from the next three cells |
| IntcodeLoop.LoopInvariant | y2019/src/computer.rs:277-312 | a property that every continuing step keeps holds of every machine the loop reaches |
| IntcodeLoop.LoopFuelMonotone | y2019/src/computer.rs:277-312 | a run that did not run out of fuel gives the same outcome with any larger fuel |
| IntcodeLoop.LoopSimulation | y2019/src/computer.rs:277-312 | if each successful step of one machine is matched by the other machine on the lifted state, then every returning or fuel-bounded run is matched too |
| IntcodeRuns.RunLoopAppendsAndConsumes | y2019/src/computer.rs:336-346 | a run only appends outputs and only consumes inputs from the front; the terminated flag changes only on a Finished return, which sets it |
| IntcodeRuns.FuelMonotone | y2019/src/computer.rs:277-312 | a run that stopped by itself gives the same result with more fuel |
| IntcodeRuns.WaitingReached | y2019/src/computer.rs:299-305 | a WaitingForInput return leaves a well-formed machine with an empty queue, resting on the Input instruction that stopped it |
| IntcodeRuns.WaitingIsIdempotent | y2019/src/computer.rs:277-305 | running a suspended machine again without new input returns WaitingForInput at once and changes nothing |
| IntcodeRuns.ResumeTakesInput | y2019/src/computer.rs:54-68 | after a suspension, sending one value and stepping stores exactly that value where the waiting Input points, empties the queue and advances by 2 |
| IntcodeRuns.RunFinishedIsFinal | y2019/src/computer.rs:151-161 | a Finished return leaves a terminated machine, and any later `run` of it aborts |
| IntcodeExamples.MultiplyPatchesHalt | y2019/src/computer.rs:41-53 | `1002,4,3,4,33` multiplies cell 4 by 3, which writes the Halt opcode 99, so the program finishes after two steps |
| IntcodeExamples.EchoProgram | y2019/src/computer.rs:54-80 | `3,0,4,0,99` outputs exactly the one value it was sent |
| IntcodeExamples.RelativeWriteLandsAtBasePlusOffset | y2019/src/computer.rs:139-150 | after opcode 9 moves the base to 1000, a Relative write with offset 7 lands at address 1007; addresses in between read 0 |
| IntcodeText.JoinSplit | y2019/src/computer.rs:250-260 | joining the comma-split pieces of a text gives the text back |
| IntcodeText.SplitJoin | y2019/src/computer.rs:250-260 | splitting the join of comma-free pieces gives the pieces back |
| IntcodeText.ParseShow | y2019/src/computer.rs:250-260 | a formatted integer inside the target range parses back to itself |
| IntcodeText.ParseAllMeaning | y2019/src/computer.rs:250-260 | a successful parse holds each piece's value at its position; a failed parse names the first piece that does not parse |
| IntcodeText.ParseRender | y2019/src/computer.rs:250-260 | parsing the rendered text of a non-empty in-range program gives the program back |
| IntcodeLegacy.LookupTable | src/y2019/computer.rs:24-147 | the earlier table agrees with the newer one on every opcode except 9, which it does not have |
| IntcodeLegacy.FromPackedCells | src/y2019/computer.rs:197-205 | the loaded memory holds the value of each piece in order, with pointer 0 and empty queues; a failed load names the first piece that is not an `i32` |
| IntcodeLegacy.FromPackedRender | src/y2019/computer.rs:197-205 | loading the rendered text of a non-empty `i32` program gives that program |
| IntcodeLegacy.Fixup | src/y2019/computer.rs:207-210 | succeeds exactly on programs of at least three cells; sets cell 1 to the noun and cell 2 to the verb and changes nothing else; on a shorter program it aborts at the first missing cell |
| IntcodeLegacy.Checked | src/y2019/computer.rs:24-50 | an arithmetic result is accepted exactly when it fits in `i32`; otherwise the step aborts with Overflow |
| IntcodeLegacy.ReadParam | src/y2019/computer.rs:260-265 | an Immediate parameter is its own value; any other parameter reads the cell it names, and aborts when that cell lies outside memory |
| IntcodeLegacy.WriteParam | src/y2019/computer.rs:267-274 | a write through an Immediate parameter aborts; any other write stores into the named cell, and aborts when that cell lies outside memory |
| IntcodeLegacy.Execute | src/y2019/computer.rs:24-147 | memory never changes length; Finished comes only from Halt; WaitingForInput comes exactly from Input on an empty queue and changes nothing; only jumps move the pointer |
| IntcodeLegacy.Fetch | src/y2019/computer.rs:223-232 | a pointer outside memory aborts at that address; a successful fetch has its pointer inside memory |
| IntcodeLegacy.Params | src/y2019/computer.rs:234-243 | the parameters are the cells after the instruction, with the decoded modes defaulting to Position; reading past the end aborts at the first missing cell, which is at the memory's length |
| IntcodeLegacy.ValueAt | src/y2019/computer.rs:288-290 | a read inside memory returns the cell; a read outside memory aborts |
| IntcodeLegacy.SendInput | src/y2019/computer.rs:276-278 | queues the value behind those already waiting and changes nothing else |
| IntcodeLegacy.DrainOutputs | src/y2019/computer.rs:300-304 | returns every output in emission order and leaves an empty buffer |
| IntcodeLegacy.StepKeepsLength | src/y2019/computer.rs:223-258 | no step changes the memory's length |
| IntcodeLegacy.FetchRefines | src/y2019/computer.rs:212-233 | whatever the earlier machine fetches, the newer machine fetches too, and its modes are never Relative |
| IntcodeLegacy.ExecuteRefines | src/y2019/computer.rs:24-147 | whatever an operation does in the earlier machine, it does in the newer machine on the lifted state |
| IntcodeLegacy.StepRefines | src/y2019/computer.rs:245-256 | each successful step of the earlier machine is the same step of the newer machine, with the same status and pointer rule |
| IntcodeLegacy.RunRefines | src/y2019/computer.rs:223-258 | each earlier run that returns or runs out of fuel is matched by a newer run with the same fuel and status and the lifted final state |
| Point3.Clamp | util/src/point3.rs:125-133 | for `lo <= hi` the result lies in `lo..=hi`; a value already in range comes back unchanged; the result is always the value or one of the bounds |
| Point3.ClampPoint | util/src/point3.rs:101-107 | the clamped point lies between the corners of a well-formed bound, end corner included, and a point already there is unchanged |
| Point3.Intersect | util/src/point3.rs:278-290 | the intersection starts at the larger start on every axis and never runs backwards, even for boxes that do not meet |
| Point3.IntersectContains | util/src/point3.rs:272-290 | a point lies in the intersection exactly when it lies in both boxes, start inclusive and end exclusive on each axis |
| Point3.Union | util/src/point3.rs:292-294 | the union starts at or below both starts and ends at or above both ends |
| Point3.UnionContains | util/src/point3.rs:217-233 | for well-formed boxes the union runs from the smaller start to the larger end on every axis and holds every point of either box |
| Point3.UnionIsArg | util/src/point3.rs:292-305 | the union of two well-formed boxes equals the second box exactly when both corners of the first lie inside it, end corner included |
| Point3.Volume | util/src/point3.rs:326-329 | the volume of a well-formed box is never negative |
| Point3.IsEmptyMeansNoPoint | util/src/point3.rs:235-237 | a well-formed box has volume 0 exactly when it holds no point |
| Point3.IntersectEmptyIffDisjoint | util/src/point3.rs:278-290 | the intersection has volume 0 exactly when no point lies in both boxes |
| Point3.IsEmptyAsWrittenMissesFlatBoxes | util/src/point3.rs:235-237 | two unit cubes that touch along a face have an intersection with distinct corners but volume 0 and no point; `is_empty` as written calls it non-empty, so the classification as written reports a partial overlap where the corrected one reports none |
| Point3.Corners | util/src/point3.rs:239-252 | the eight corners, x changing fastest, then y, then z |
| Point3.Octants | util/src/point3.rs:254-270 | eight boxes; box i takes the lower or upper window of `[start, mid, end]` on x by bit 0 of i, on y by bit 1 and on z by bit 2 |
| Point3.OctantsPartition | util/src/point3.rs:254-276 | with `mid` inside the box, each point of the box lies in the octant on its side of `mid` on every axis, and a point in any octant lies in the box and in no other octant |
| Point3.OctantsVolume | util/src/point3.rs:254-270 | with `mid` inside the box, the eight octant volumes add up to the box's volume |
| Point3.BestIndex | util/src/point3.rs:331-339 | the position of the first point whose score is the highest of all |
| Point3.BestMidPoint | util/src/point3.rs:331-345 | the chosen mid point is a corner of the options box, and no corner scores higher |
| Point3.GetOverlap | util/src/point3.rs:296-317 | the corrected classification of the Findings row: it tests the intersection for emptiness by its volume where line 311 calls `is_empty()` (`start == end`); the result is Identical exactly for equal boxes, and both mid points of a partial overlap are corners of the intersection. GetOverlapAsWritten is the code as written |
| Point3.GetOverlapAsWritten | util/src/point3.rs:296-317 | with the emptiness test as written, the classification still reports Identical exactly for equal boxes, and it differs from the corrected one only by reporting a partial overlap where the corrected one reports none |
| Point3.GetOverlapMeaning | util/src/point3.rs:296-317 | for well-formed boxes: containment either way puts every point of the inner box in the outer one; a partial overlap has a common point; no overlap means no common point |
| Point3.SelfOverlapIsIdentical | util/src/point3.rs:302-303 | a box compared with itself is Identical |
| Snafu.DigitValue | y2022/src/d25/mod.rs:4-11 | exactly the five characters `=`, `-`, `0`, `1`, `2` are digits, each worth -2..2 |
| Snafu.DigitFor | y2022/src/d25/mod.rs:23-30 | the digit chosen for a balanced remainder is worth that remainder |
| Snafu.FromSnafu | y2022/src/d25/mod.rs:1-15 | the conversion succeeds exactly on strings made only of digits; any other character aborts |
| Snafu.FromSnafuAppend | y2022/src/d25/mod.rs:1-15 | a digit appended on the right multiplies the value so far by 5 and adds the digit's worth |
| Snafu.ToSnafu | y2022/src/d25/mod.rs:17-35 | succeeds exactly for non-negative numbers; the result is all digits with no leading `0`, and is empty exactly for 0 |
| Snafu.SnafuRoundTrip | y2022/src/d25/mod.rs:1-35 | converting a non-negative number to SNAFU and back gives the number |
| Snafu.SnafuUnique | y2022/src/d25/mod.rs:1-35 | every digit string without a leading `0` whose value is non-negative is exactly the string `to_snafu` writes for that value |
| Cycles.RemainderZeroIffDivides | util/src/cycle_helpers.rs:48-52 | Rust's `%` gives 0 exactly on multiples of the divisor |
| Cycles.EuclidLoop | util/src/cycle_helpers.rs:20-31 | the `while r != 0` loop of `extended_gcd`, one iteration per call, with truncating `/` and `%`; EuclidLoopBezout and EuclidLoopDivides state what it computes |
| Cycles.EuclidLoopBezout | util/src/cycle_helpers.rs:20-29 | each iteration keeps both remainders equal to their coefficient combination of `a` and `b`, so the result satisfies `s·a + t·b == gcd` |
| Cycles.EuclidLoopDivides | util/src/cycle_helpers.rs:20-31 | the result divides both numbers the loop starts from |
| Cycles.ExtendedGcd | util/src/cycle_helpers.rs:7-32 | `s·a + t·b == gcd`; the gcd divides both `a` and `b`; it is positive for non-negative inputs that are not both 0 |
| Cycles.GcdIsGreatest | util/src/cycle_helpers.rs:7-32 | every common divisor of `a` and `b` divides the result |
| Cycles.Combine | util/src/cycle_helpers.rs:40-57 | non-zero periods never divide by zero; positive periods give a positive combined period; the combined phase is smaller than the period in size |
| Cycles.CombineMeaning | util/src/cycle_helpers.rs:34-57 | the combined rotation is at its reference point at time t exactly when both rotations are |
| Cycles.CombineNever | util/src/cycle_helpers.rs:48-52 | when the phase difference is not a multiple of the gcd, no time has both rotations at their reference points |
| Cycles.CombineFromStart | util/src/cycle_helpers.rs:68-73 | combining the starting rotation (period 1, phase 0) with a period above 1 gives that period and the phase reduced by `%` |
| Cycles.FoldCycles | util/src/cycle_helpers.rs:89-95 | for positive periods the fold either succeeds with a positive period or reports that the cycles never synchronise |
| Cycles.FoldCyclesMeaning | util/src/cycle_helpers.rs:88-95 | the folded rotation is at its reference point exactly when every cycle is aligned; a failed fold has no aligned time |
| Cycles.FirstCommonCycleAsWritten | util/src/cycle_helpers.rs:88-97 | for positive periods the free function either gives a time or reports that the cycles never synchronise |
| Cycles.FirstCommonCycleAsWrittenAligned | util/src/cycle_helpers.rs:88-97 | the free function's time is aligned for every cycle |
| Cycles.FirstCommonCycleAsWrittenNegative | util/src/cycle_helpers.rs:96 | for the cycles (0, 5) and (1, 3) the free function gives -5, where the trait version gives 10 |
| Cycles.RaiseToNonNegative | util/src/cycle_helpers.rs:79-83 | with a positive period the loop ends on a non-negative value that differs from the start by a multiple of the period, below the period when the start was negative; a non-negative start is kept |
| Cycles.FirstCommonCycle | util/src/cycle_helpers.rs:59-85 | with positive periods the trait version either answers or reports cycles that never synchronise; FirstCommonCycleIsFirst states that the answer is the first positive aligned time |
| Cycles.FirstCommonCycleIsFirst | util/src/cycle_helpers.rs:59-85 | for positive periods the trait version's answer is positive, aligned for every cycle, and no earlier positive time is aligned; when it fails, no time is aligned |
| Snailfish.ParseInner | y2021/src/d18/mod.rs:93-120 | a number that is read takes at least one character and no more than remain after the start position; a missing character, an unknown character, a missing comma or a missing bracket is an error |
| Snailfish.Parse | y2021/src/d18/mod.rs:85-91 | a text that is read as a whole is a pair; a lone number is an error |
| Snailfish.ParseShow | y2021/src/d18/mod.rs:93-120 | wherever the printed form of a number sits in a text, reading from its first character takes exactly that many characters and gives the number back |
| Snailfish.ParsePrinted | y2021/src/d18/mod.rs:85-120 | printing a pair and parsing the text gives the pair back |
| Snailfish.TraverseDown | y2021/src/d18/mod.rs:195-206 | the tree keeps its shape, and on the leaves the value is added to the first (leftward) or the last (rightward) number only |
| Snailfish.Explode | y2021/src/d18/mod.rs:122-146 | an explosion keeps a pair and never grows the tree; reporting Nothing means the pair is unchanged |
| Snailfish.ExplodeSide | y2021/src/d18/mod.rs:148-193 | settling one side keeps a pair and never grows the tree; reporting Nothing means the pair is unchanged |
| Snailfish.DeepIndexBounds | y2021/src/d18/mod.rs:122-138 | the first pair four deep holds the two numbers at its leaf position and the one after; above depth four it has a number on at least one side |
| Snailfish.ExplodeMeaning | y2021/src/d18/mod.rs:122-193 | an `explode` call panics exactly when the leftmost pair four deep holds a pair, reports nothing exactly when there is no pair four deep, and otherwise turns that pair into 0, adds its numbers to the nearest numbers on either side, and passes upward the numbers that have no neighbour inside the subtree |
| Snailfish.ExplodeSideShallow | y2021/src/d18/mod.rs:148-193 | a side with no pair four deep leaves the node alone and reports nothing |
| Snailfish.ExplodeLeftDeep | y2021/src/d18/mod.rs:148-193 | when the leftmost deep pair is in the left child, the left side fails exactly when that pair holds a pair, and otherwise explodes it on the node's leaves, its right number landing on the right child's first number when the left child has none for it |
| Snailfish.ExplodeRightDeep | y2021/src/d18/mod.rs:148-193 | when the leftmost deep pair is in the right child, the right side fails exactly when that pair holds a pair, and otherwise explodes it on the node's leaves, its left number landing on the left child's last number when the right child has none for it |
| Snailfish.Split | y2021/src/d18/mod.rs:208-210 | a split keeps a pair, and reporting no split means the pair is unchanged |
| Snailfish.SplitMeaning | y2021/src/d18/mod.rs:208-234 | `split` reports a split exactly when some number is 10 or more, and then replaces the leftmost such number by its halves rounded down and up, every other number staying in place |
| Snailfish.SplitSideMeaning | y2021/src/d18/mod.rs:212-234 | one side splits exactly when it holds a number of 10 or more, splits its first one, and leaves the other side alone |
| Snailfish.FirstBigIsFirst | y2021/src/d18/mod.rs:208-222 | the position found holds a number of 10 or more and every number before it is below 10 |
| Snailfish.SplitKeepsSum | y2021/src/d18/mod.rs:208-234 | halving a number into a pair keeps the sum of all numbers |
| Snailfish.Magnitude | y2021/src/d18/mod.rs:236-245 | three times the left magnitude plus twice the right, a number being its own magnitude; MagnitudeWeighted gives its closed form and MagnitudeExample the source's example |
| Snailfish.MagnitudeWeighted | y2021/src/d18/mod.rs:236-245 | the magnitude is the sum of every number times 3 for each left turn and 2 for each right turn on its path from the root |
| Snailfish.Reduce | y2021/src/d18/mod.rs:247-250 | a reduction step keeps a pair, and reporting no change means the number is unchanged |
| Snailfish.ReduceMeaning | y2021/src/d18/mod.rs:247-250 | an explosion always goes first when a pair sits four deep, a split happens only when none does, and no change is reported exactly when nothing is four deep and every number is below 10 |
| Snailfish.ReduceLoopReduced | y2021/src/d18/mod.rs:297-302 | the reduction loop stops only on a reduced number |
| Snailfish.Add | y2021/src/d18/mod.rs:291-304 | the pair of the two numbers, reduced while a step changes it, within the fuel; AddReduced states that the sum comes out reduced |
| Snailfish.AddReduced | y2021/src/d18/mod.rs:291-304 | a sum that comes out is reduced, and the pair of two numbers that is already reduced is its own sum |
| Snailfish.ExplodeExample | y2021/src/d18/mod.rs:310 | `[[[[[9,8],1],2],3],4]` reduces in one step to `[[[[0,9],2],3],4]` |
| Snailfish.SplitExample | y2021/src/d18/mod.rs:212-234 | with nothing four deep, `[[15,0],13]` reduces in one step to `[[[7,8],0],13]`: only the first big number splits |
| Snailfish.MagnitudeExample | y2021/src/d18/mod.rs:236-245 | the magnitude of `[[1,2],[[3,4],5]]` is 143 |
| SequencePrediction.Derivative | y2023/src/d09/mod.rs:31-39 | the fold pairs each element with the one before it and returns the list of neighbour differences, one shorter than the row |
| SequencePrediction.ZeroPredictsZero | y2023/src/d09/mod.rs:27-29 | a row of zeros, the empty row included, predicts 0 |
| SequencePrediction.ConstantPredictsConstant | y2023/src/d09/mod.rs:27-43 | a non-empty constant row predicts its constant |
| SequencePrediction.ArithmeticPredictsNext | y2023/src/d09/mod.rs:27-43 | a row a + b·i of length at least 2 predicts the next term a + b·n |
| SequencePrediction.PredictNext | y2023/src/d09/mod.rs:27-44 | `predict_next`: 0 on an all-zero row, else the last element plus the prediction for the differences; its meaning is stated by ArithmeticPredictsNext, LastStep and ExtendedDifferences |
| SequencePrediction.LastStep | y2023/src/d09/mod.rs:41-42 | the prediction exceeds the row's last element by the prediction for its differences |
| SequencePrediction.ExtendedDifferences | y2023/src/d09/mod.rs:27-43 | appending the prediction to a row appends the differences' prediction to its differences, so the prediction continues every level of the pyramid |
| SequencePrediction.ReverseDifferences | y2023/src/d09/mod.rs:17-23 | the differences of the reversed row are the reversed differences with their signs flipped |
| SequencePrediction.NegatePredicts | y2023/src/d09/mod.rs:27-43 | negating every element negates the prediction |
| SequencePrediction.PredictPrevious | y2023/src/d09/mod.rs:17-23 | part two: the prediction on the reversed row; PreviousUnfolds, FirstStep and PrependedDifferences state that it extends the row at the front |
| SequencePrediction.PreviousUnfolds | y2023/src/d09/mod.rs:17-23 | part two's prediction on the reversed row is the first element minus the same prediction for the differences |
| SequencePrediction.FirstStep | y2023/src/d09/mod.rs:17-23 | the first element exceeds part two's value by the differences' part-two value |
| SequencePrediction.PrependedDifferences | y2023/src/d09/mod.rs:17-23 | putting part two's value in front of a row puts the differences' part-two value in front of its differences |
| Lanternfish.SimulateLoop | y2021/src/d06/mod.rs:5-18 | the day loop on nine counts returns the number of fish after the given number of days |
| Lanternfish.DayAddsNewborns | y2021/src/d06/mod.rs:8-14 | one day adds exactly one fish for every fish whose timer was at 0 |
| Lanternfish.PopulationGrows | y2021/src/d06/mod.rs:5-18 | the population never shrinks |
| Lanternfish.NextDay | y2021/src/d06/mod.rs:7-14 | the inner loop of `simulate` over the map entries in iteration order; NextDayEntry and DayOnMap state that for timers up to 8 the order does not matter, and OrderMattersPastEight that above 8 it does |
| Lanternfish.NextDayEntry | y2021/src/d06/mod.rs:7-14 | whatever order the map is iterated in, the next day's count at a timer is the count one timer up, plus the fish at 0 for timers 6 and 8 |
| Lanternfish.NextDayTimers | y2021/src/d06/mod.rs:7-14 | a day keeps every timer within 0..=8 |
| Lanternfish.DayOnMap | y2021/src/d06/mod.rs:7-15 | one pass over the map, in any iteration order, gives the nine counts of a day |
| Lanternfish.OrderMattersPastEight | y2021/src/d06/mod.rs:8-13 | a timer outside 0..=8 makes the result depend on the iteration order: the insert at 8 for a fish at 0 overwrites what a timer-9 entry added there |
| Lanternfish.SumValuesTotal | y2021/src/d06/mod.rs:17 | the sum of the map's values, in any order, is the total of the nine counts |
| Lanternfish.BuildCountsCounts | y2021/src/d06/mod.rs:25-28 | counting a list of fish into the map gives each timer the number of fish with that timer |
| Lanternfish.FishTotal | y2021/src/d06/mod.rs:25-28 | the nine counts of a list of fish add up to its length |
| Lanternfish.DayFishCounts | y2021/src/d06/mod.rs:8-14 | a day on the counts agrees with a day on every fish one by one, where a fish at 0 resets to 6 and spawns one at 8 |
| Lanternfish.AfterCountsFish | y2021/src/d06/mod.rs:5-16 | after any number of days the counts are the counts of the fish simulated one by one |
| Lanternfish.SimulateCountsFish | y2021/src/d06/mod.rs:5-18 | `simulate` on the counts of a list of fish is the length of the list simulated fish by fish |
| Crates.DoMove | src/y2022/d05/mod.rs:48-55 | a move panics exactly when `from` names no stack, that stack holds fewer than `count` crates, or `to` names no stack; otherwise the number of stacks stays the same |
| Crates.MoveBetween | src/y2022/d05/mod.rs:48-55 | between two different stacks, the source loses its top `count` crates and they land on top of the destination, reversed by the older crane and in order by the newer; every other stack stays the same |
| Crates.MoveOntoItself | src/y2022/d05/mod.rs:48-55 | a move from a stack onto itself puts the block back where it was, reversed by the older crane |
| Crates.MoveKeepsCount | src/y2022/d05/mod.rs:48-55 | a move keeps the number of crates |
| Crates.MoveBack | src/y2022/d05/mod.rs:48-55 | moving the same number of crates back from the destination to the source undoes a move between two stacks, for either crane |
| Crates.OlderCraneLiftsOneByOne | src/y2022/d05/mod.rs:48-55 | between two different stacks, the older crane's move of `count` crates succeeds exactly when `count` one-crate moves do, and has the same result |
| Crates.OneByOneMoves | src/y2022/d05/mod.rs:48-55 | `n` one-crate moves succeed exactly when the source holds `n` crates, and then carry its top `n` crates over in reverse order |
| Crates.SameStackDiffers | src/y2022/d05/mod.rs:48-55 | onto the same stack, two one-crate moves leave `AB` as it was while one two-crate move of the older crane turns it into `BA` |
| Crates.TopLetters | src/y2022/d05/mod.rs:57-59 | the read-out is every stack's top crate in order, and panics, naming the first empty stack, exactly when some stack is empty |
| Crates.TopAfterMove | src/y2022/d05/mod.rs:48-59 | after a move of at least one crate, the destination's top is the source's old top with the newer crane and the deepest moved crate with the older one |
| Crates.RunMoves | src/y2022/d05/mod.rs:75-83 | the moves of `main` applied in order, the first failing one panicking; RunMovesKeepsCount states what a run keeps |
| Crates.RunMovesKeepsCount | src/y2022/d05/mod.rs:75-83 | a list of moves that does not panic keeps the number of stacks and of crates |
| Crates.ParseDrawing | src/y2022/d05/mod.rs:26-46 | the number of stacks is the length of the label line plus 2, divided by 4 |
| Crates.ParseDraw | src/y2022/d05/mod.rs:26-46 | parsing the drawing of any stacks of letters gives those stacks back |
| SignalWindow.FindPos | src/y2022/d06/mod.rs:3-31 | a window of size 0 panics; otherwise the result is the end of the first window of `n` pairwise different characters, or 0 when no window of the input has them |
| SignalWindow.WindowDistinct | src/y2022/d06/mod.rs:5-18 | counts that match a window have no character counted twice exactly when the window's characters are pairwise different |
| Password.ReverseDigits | y2019/src/d04/mod.rs:39-47 | every element is a decimal digit, and the list is empty exactly when the number is not positive |
| Password.DigitsRoundTrip | y2019/src/d04/mod.rs:39-47 | the digits of a positive number, least significant first, give the number back and end in a non-zero digit |
| Password.ValueRoundTrip | y2019/src/d04/mod.rs:39-47 | a list of digits that does not end in 0 is the digit list of its own value |
| Password.IsValidPassword | y2019/src/d04/mod.rs:17-37 | a number that is not positive panics on `digits[0]`; any other is valid exactly when its digits never decrease from left to right and some run of equal digits has length exactly two |
| Password.CheckDigits | y2019/src/d04/mod.rs:19-36 | the loop over the reversed digits accepts exactly the valid digit lists |
| Password.Decreasing | y2019/src/d04/mod.rs:31-33 | a digit above the one before it in the reversed list makes the password invalid |
| Password.LastRun | y2019/src/d04/mod.rs:26-36 | a closed run of exactly two, or a last run of exactly two, is found exactly when the digits hold a run of length exactly two |
| Password.RejectsTriple | y2019/src/d04/mod.rs:5-10 | 123444 is rejected: its only repeated digit runs three long |
| Password.AcceptsPairs | y2019/src/d04/mod.rs:5-10 | 112233 is accepted |
| Password.AcceptsPairAfterQuad | y2019/src/d04/mod.rs:5-10 | 111122 is accepted: the run of four ones does not hide the pair of twos |
| Brackets.Parse | y2021/src/d10/mod.rs:13-23 | `parse_first_incorrect_or_necessary_remaining`: Check from an empty stack; CompletedLineBalances and BalancedLine state its meaning on whole lines |
| Brackets.Check | y2021/src/d10/mod.rs:14-22 | the character loop from a given stack: push the closer of an opener, report a character that does not match the popped closer; CheckAppend, FirstMismatchReported, ReportedIsMismatch and StackHoldsClosers state its meaning |
| Brackets.CheckAppend | y2021/src/d10/mod.rs:13-23 | scanning two pieces of a line in one go is scanning the first and going on with the second from its stack, unless the first is already corrupted |
| Brackets.FirstMismatchReported | y2021/src/d10/mod.rs:13-23 | the first character that is no opener and does not match the top of the stack is the one reported |
| Brackets.ReportedIsMismatch | y2021/src/d10/mod.rs:13-23 | a reported character occurs in the line at a point where everything before it scanned cleanly and it does not match the stack |
| Brackets.StackHoldsClosers | y2021/src/d10/mod.rs:13-23 | the remaining stack of an incomplete line holds closing characters only |
| Brackets.CompletedLineBalances | y2021/src/d10/mod.rs:13-31 | an incomplete line followed by its remaining closers, top first, scans with nothing left open |
| Brackets.BalancedLine | y2021/src/d10/mod.rs:13-23 | a line made of well-formed chunks is not corrupted and leaves nothing open |
| Brackets.ErrorPoints | y2021/src/d10/mod.rs:33-41 | a character scores syntax-error points exactly when it is one of the four closers; any other panics |
| Brackets.ClosingValue | y2021/src/d10/mod.rs:43-54 | each of the four closers is worth 1 to 4; any other character panics |
| Brackets.Points | y2021/src/d10/mod.rs:43-54 | a completion can be scored exactly when it holds only closers |
| Brackets.PointsRoundTrip | y2021/src/d10/mod.rs:43-54 | the closers can be read back from their score as base-5 digits |
| Brackets.PointsInjective | y2021/src/d10/mod.rs:43-54 | different completions score differently |
| Brackets.IncompleteLineScores | y2021/src/d10/mod.rs:13-54 | the remaining closers of any incomplete line can be scored without a panic |
| Brackets.ExampleScore | y2021/src/d10/mod.rs:43-54 | the completion `}}]])})]` scores 288957 |
| Handheld.AsUsize | y2020/src/d08/mod.rs:55-72 | a non-negative counter is its own index, and a negative one wraps around to an index past any program |
| Handheld.Step | y2020/src/d08/mod.rs:60-69 | `acc` adds its argument to the accumulator, `jmp` moves the counter by its argument, and every other instruction moves it on by one and keeps the accumulator |
| Handheld.Run | y2020/src/d08/mod.rs:51-77 | the result is `Ok` exactly when the program runs off its end, with the accumulator it ends on; otherwise it is the accumulator just before an instruction would run a second time |
| Handheld.HaltsWithOne | y2020/src/d08/mod.rs:51-77 | a program that ends has exactly one final accumulator |
| Handheld.StaysInLoop | y2020/src/d08/mod.rs:51-77 | once a counter comes back without the program having left its bounds, the program never leaves them |
| Handheld.Flip | y2020/src/d08/mod.rs:81-86 | the flipped program turns the `jmp` or `nop` at one index into the other (a changed op that is not `acc`), keeps its argument and is the same everywhere else |
| Handheld.FlipTwice | y2020/src/d08/mod.rs:81-90 | switching the same instruction back restores the program, as the source does after an unsuccessful try |
| Handheld.CorrectedOutput | y2020/src/d08/mod.rs:79-93 | the answer is the final accumulator of the first flip, in index order, that makes the program end; when no flip does, the source panics and the program is left as it was |
| LensLibrary.Hash | y2023/src/d15/mod.rs:81-89 | the hash is below 256 |
| LensLibrary.HashAppend | y2023/src/d15/mod.rs:88 | the hash is a left fold: a string's hash goes on from the hash of any prefix |
| LensLibrary.HashExample | y2023/src/d15/mod.rs:81-89 | `HASH` hashes to 52 |
| LensLibrary.LabelPosition | y2023/src/d15/mod.rs:23-27 | the position is the first slot holding the label, and there is none exactly when no lens has it |
| LensLibrary.Remove | y2023/src/d15/mod.rs:55-59 | `-`: drop the lens at the label's first position, if any; RemoveClears, RemoveIsWithout and PutThenRemove state its effect |
| LensLibrary.RemoveClears | y2023/src/d15/mod.rs:55-58 | after `-` no lens in the box has the label, and labels stay unique |
| LensLibrary.Put | y2023/src/d15/mod.rs:60-67 | `=`: change the focal length in the label's slot, or append a new lens; PutSets, PutExistingPower and PutNewPower state its effect |
| LensLibrary.PutSets | y2023/src/d15/mod.rs:60-66 | after `=` exactly one lens has the label, with the new focal length, and labels stay unique |
| LensLibrary.RemoveIsWithout | y2023/src/d15/mod.rs:55-58 | in a box with unique labels, `-` leaves exactly the lenses with other labels, in their order |
| LensLibrary.PutThenRemove | y2023/src/d15/mod.rs:55-66 | `=` changes no lens but the one with the label: taking the label out afterwards leaves what taking it out before leaves |
| LensLibrary.Apply | y2023/src/d15/mod.rs:51-69 | a step changes only the box its label hashes to |
| LensLibrary.ApplyKeepsSorted | y2023/src/d15/mod.rs:51-69 | every step keeps each lens in the box its label hashes to, and no label twice in a box |
| LensLibrary.BoxPower | y2023/src/d15/mod.rs:29-40 | `calc_scores`: (box + 1) times slot number times focal length, summed over the box; BoxPowerFactors states how it factors |
| LensLibrary.BoxPowerFactors | y2023/src/d15/mod.rs:29-40 | a box's power is its number plus one times the sum of focal lengths weighted by slot number |
| LensLibrary.PutExistingPower | y2023/src/d15/mod.rs:29-66 | changing the focal length of the lens in slot i changes the box's power by (box + 1)(i + 1) times the change |
| LensLibrary.PutNewPower | y2023/src/d15/mod.rs:29-66 | a new lens at the back adds (box + 1) times its slot number times its focal length |
| Bitmask.FromBinaryBit | y2020/src/d14/mod.rs:24-25 | bit q of a binary string's value is its q-th character from the right, and 0 beyond the string |
| Bitmask.MaskedBit | y2020/src/d14/mod.rs:21-55 | with the two masks of part one, a value's bit comes through where the mask has `X`, is forced where it has `0` or `1`, and is 0 above the 36 mask bits |
| Bitmask.Execute1 | y2020/src/d14/mod.rs:46-57 | a mask line keeps the memory, and a write keeps the masks and adds exactly its address to the memory's addresses |
| Bitmask.Run1 | y2020/src/d14/mod.rs:64-69 | part one's instructions executed in order from the default state; LastWriteWins and NeverWritten state what the memory holds afterwards |
| Bitmask.LastWriteWins | y2020/src/d14/mod.rs:46-57 | after a run, the address of the last write to it holds that write's value under the masks in force at that point |
| Bitmask.NeverWritten | y2020/src/d14/mod.rs:46-57 | an address no instruction writes is not in memory |
| Bitmask.Floating | y2020/src/d14/mod.rs:105-110 | the floating positions, counted from the least significant bit, are exactly the mask's `X` positions, all below 36 and in decreasing order |
| Bitmask.MaskLine2 | y2020/src/d14/mod.rs:101-111 | a part-two mask line has distinct floating positions below 64 |
| Bitmask.DecorateBit | y2020/src/d14/mod.rs:142-153 | in the i-th address of a write, floating bit j is bit j of i and every other bit is the base address's |
| Bitmask.DecorateInjective | y2020/src/d14/mod.rs:142-153 | different counters give different addresses |
| Bitmask.WriteAllEffect | y2020/src/d14/mod.rs:142-156 | after the writes every reached address holds the value, and every other address keeps what it held |
| Bitmask.ReachesPowerOfTwo | y2020/src/d14/mod.rs:142-156 | a write with k floating bits reaches exactly 2^k addresses, which agree with the base address outside the floating bits |
| Bitmask.ReachedHasBaseMask | y2020/src/d14/mod.rs:141-156 | every reached address has every bit the mask sets to `1` |
| Bitmask.Execute2 | y2020/src/d14/mod.rs:131-159 | a mask line replaces the mask and keeps the memory; a write panics when `2u32.pow` overflows or a floating position is 64 or more, and otherwise stores the value at every combination of floating bits over the address ORed with the base mask |
| Bitmask.StoreFloating | y2020/src/d14/mod.rs:142-156 | the outer loop stores the value at each of the first `count` decorated addresses |
| Bitmask.Decorated | y2020/src/d14/mod.rs:143-153 | the inner loop sets each floating bit to the next bit of the counter |
| SeedRanges.SplitRange | y2023/src/d05/mod.rs:37-86 | an empty range gives no piece; the pieces' lengths add up to the range's length; with the maps sorted by source start the pieces are, in order, the cuts of the range each shifted by the first map range holding it or kept when none does; a panic happens only through a map range whose destination passes `u64::MAX`, so none happens when every map range fits |
| SeedRanges.TranslatesLength | y2023/src/d05/mod.rs:37-86 | translated pieces are exactly as long together as the range they come from |
| SeedRanges.NextPiece | y2023/src/d05/mod.rs:43-82 | one cut is non-empty, and is shifted through the map range that holds its start, or kept up to the next map range's start |
| Workflows.AttrOf | y2023/src/d19/mod.rs:63-68 | a rating name is known exactly when it is `x`, `m`, `a` or `s` |
| Workflows.Accepts | y2023/src/d19/mod.rs:59-77 | a rule without a condition takes every part, and an unknown rating name panics |
| Workflows.Decide | y2023/src/d19/mod.rs:88-90 | an `Ok` result is the action of the first rule that takes the part, and when some rule takes it with every earlier rule rejecting it the result is that rule's action; the `unwrap` panics only when every rule rejects it |
| Workflows.Split | y2023/src/d19/mod.rs:109-155 | no condition passes the whole box; an unknown rating panics, `> u32::MAX` overflows; both sides change only the compared rating's range |
| Workflows.SplitAgrees | y2023/src/d19/mod.rs:59-155 | a part of the box lies in the pass side exactly when the rule takes it, and in the fail side exactly when it does not |
| Workflows.SplitWithin | y2023/src/d19/mod.rs:109-155 | both sides of a split lie within the box |
| Workflows.Count | y2023/src/d19/mod.rs:219-225 | the `A` count panics exactly when some range is reversed, and is otherwise the product of the range lengths |
| Workflows.PartsCount | y2023/src/d19/mod.rs:219-225 | the product of the range lengths is the number of parts in the box |
| Workflows.NumOptions | y2023/src/d19/mod.rs:207-251 | `R` counts 0 and `A` counts the box |
| Workflows.NumOptionsCounts | y2023/src/d19/mod.rs:207-251 | when every operator is `<` or `>`, `num_options` is the number of parts of the box that part one's loop leads to `A` |
| Workflows.RuleOptions | y2023/src/d19/mod.rs:228-248 | the loop over a workflow's rules: the pass box counted through the rule's action, the fail box handed to the next rule, stopping when there is none; RuleOptionsCounts states what it counts |
| Workflows.RuleOptionsCounts | y2023/src/d19/mod.rs:228-248 | the loop over a workflow's rules counts the parts of the box whose first taking rule's action leads to `A` |

## Left out

- Both machines' `run` loops: a run that never stops is cut off by the `fuel` bound, and no lemma speaks about what happens beyond it.
- `assert_finished` and `assert_waiting_for_input` only panic on the other status. `memory()` and `outputs()` are plain accessors. None of them is modelled.
- The operation table is a `HashMap` built from a list of pairs. It is modelled as the list, looked up front to back; the opcodes are distinct, so the order does not matter.
- IntcodeLegacy.RunRefines: says nothing about runs of the earlier machine that abort. There the newer machine may go on, for example past the end of memory, where it reads 0.
- IntcodeLegacy: `Vec` lengths are bounded by `isize::MAX`. The refinement only assumes a memory shorter than 2^64, which covers that bound.
- Point3.Volume: the source's coordinate type is a generic Rust integer, and the product of the three extents can overflow it. Coordinates are unbounded here.
- Point3: `cast`, `get_bounding_box` and `containing_points` over arbitrary iterators are not modelled. `containing_points` appears only through the four corners `union` passes it.
- Point3.GetOverlap: the repository's test at util/src/point3.rs:424-427 expects FullyContainedByArg for a box compared with itself. The code tests equality first and returns Identical, and the model follows the code.
- Snafu.FromSnafu: `5i64.pow(exponent)` and the running sum overflow `i64` beyond 27 digits. Values are unbounded here.
- Snafu.ToSnafu: the warning printed for a negative input is output only and is left out.
- Cycles: the integer type is generic, and overflow of its products is not modelled. The trait version's `eprintln!` is output only and is left out.
- Cycles.Combine: a zero gcd or a zero combined period makes Rust's `/` or `%` panic. The model returns `Err(DivideByZero)` instead. Both `unwrap()` calls on a failed combination become the `Err` result of the fold.
- Snailfish: the source's `u32` numbers, its `+=` in `traverse_down` and its magnitude can overflow. Numbers are unbounded here.
- Snailfish.Show: prints single-digit numbers only, the ones the parser accepts. The `Debug` implementation prints any number.
- Snailfish.ReduceLoop: the `while reduce(..) {}` loop is given a `fuel` bound, and that every number reduces in finitely many steps is not proved.
- Snailfish.Parse: characters after the first complete number are ignored, as in the source. `p_u32c` is modelled as the digit's value.
- Snailfish: `main` reads the puzzle input, folds the list with `add` and takes the largest magnitude over all ordered pairs. It is an input driver and is left out, and so are `test` and `print_diff`, which only print.
- SequencePrediction: the source's `i32` elements, differences and sums can overflow. Numbers are unbounded here. `main` parses the input and sums the predictions, and is left out.
- Lanternfish: the `u64` counts and their sum can overflow. Counts are unbounded here. Parsing the input is left out.
- Lanternfish: `p_u32` accepts timers above 8, and then the result of `simulate` depends on the order in which the `HashMap` is iterated. NextDayEntry, DayOnMap and SumValuesTotal therefore speak only of timers 0 to 8, and OrderMattersPastEight shows the dependence above 8.
- Crates: the model works on characters, as `chars().nth` does. The regular expression that reads a move is not modelled; a move is given as its three numbers. The split of the input into drawing and moves is left out.
- SignalWindow.FindPos: `distinct_count - 1` underflows for a window of size 0. A debug build panics there, and the model returns `None`.
- Password: `main`, which counts the valid numbers of a range, is left out. The example lemmas cover three of the numbers it lists first.
- Brackets: the `u64` scores can overflow. Scores are unbounded here. `main` sums the error points and takes the median completion score, and is left out.
- Handheld: parsing the program (`from_packed`) is left out. A jump's target and the accumulator are `i32` in the source, and their overflow is not modelled. The model assumes a program shorter than `isize::MAX` instructions.
- LensLibrary: the regular expression that reads a step and `p_u32` are left out. An operator other than `-` or `=` cannot be written in a `Step`. The sums in `main` are left out, and so is the `usize` overflow of the power.
- Bitmask: parsing a line with its regular expressions is left out. A mask is given as its 36 characters, and a write as its two numbers. `sum_memory`, `do_pt1` and `do_pt2` only sum and print, and are left out.
- Bitmask.Execute2: floating positions are held as 7-bit numbers. A mask line only yields positions below 36, so a `u64` position of 128 or more cannot occur from parsed input and is not represented.
- SeedRanges: `RangeInfo::from_line`, which can overflow on `src_start + len`, the seed parsing, `get_lowest` and `main` are left out. The translation overflow of a debug build is the `None` result.
- SeedRanges.SplitRange: states the meaning of the pieces only for a section sorted by source start, which is how `main` builds every section. For an unsorted section only the total length is stated.
- Workflows: the parsing of workflows and parts is left out. The `u32` sum of part one's ratings and the `u64` product and sum of `num_options` can overflow. Counts are unbounded here.
- Workflows.NumOptions: each workflow entered spends one unit of `fuel`, and running out is an `OutOfFuel` result. Workflows that lead in a circle make the source recurse until the stack overflows.
- Workflows.RuleOptionsCounts: assumes every operator is `<` or `>`, for the reason given on the NumOptionsCounts line below.
- Workflows.NumOptionsCounts: assumes every operator is `<` or `>`. With any other operator `split` treats the rule as `<`, while `accepts` panics, so the two parts disagree.
- Workflows.Route: the part-one loop has the same `fuel` bound. It is the reference for `num_options`, so it carries no contract of its own.

## Findings

| source | as written | input that shows it | evidently intended | confidence | as-written member | corrected member |
|---|---|---|---|---|---|---|
| util/src/point3.rs:235-237 | `is_empty` holds only when both corners coincide | the intersection of the unit cube at the origin with the unit cube at x = 1 is the face from (1,0,0) to (1,1,1); its corners differ, yet it has volume 0 and holds no point, so `get_overlap` reports PartialOverlap for two boxes that only touch | a box without volume is empty, as the other copy (src/util/point3.rs:138-140) tests with `volume() == 0` | not executed | Point3.IsEmptyAsWrittenMissesFlatBoxes | Point3.IsEmptyMeansNoPoint |
| util/src/cycle_helpers.rs:96 | the free function returns `-phase % period`, and Rust's `%` keeps the sign of `-phase` | cycles (0, 5) and (1, 3) fold to period 15 and phase 5, so the result is -5 | the first positive aligned time, 10, which the trait version in the same file computes by adding the period (and by answering the period itself when the phase is 0) | not executed | Cycles.FirstCommonCycleAsWrittenNegative | Cycles.FirstCommonCycleIsFirst |
