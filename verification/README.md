# Panopticon in Dafny

Panopticon disassembles machine code, lifts it to the intermediate language RREIL and runs abstract
interpretation over the result. This project models four of its parts, and two smaller ones, and proves
what they are for.

* **Abstract interpretation.** `Kset.dfy` is the capped powerset domain with its loops. `Interpreter.dfy`
  is the engine (`stabilize`, `execute`) as terminating functions over an environment, with nested
  components; it holds the least-fixpoint theorem for flat components and soundness over concrete runs.
  `Nested.dfy` extends both to orderings with loops that follow each other or nest, under a condition on which
  code depends on which, and `NestedLoops.dfy` has one nested loop that meets the condition and one that does
  not. `Narrowing.dfy` is what the constraints of guarded edges do to the result. `Engine.dfy` is the class that
  updates `ret` in place. All theorems hold for every instruction semantics (`Il.Semantics`).
* **Disassembly worklist.** `Pipeline.dfy` is the parallel `analyze` as interleaved atomic steps,
  `ProgramGrowth.dfy` what it puts into the program, `Sequential.dfy` the loop `pipeline`.
* **AMD64 code generator.** `Rreil.dfy` is `il::execute` and the execution of RREIL statements (on the
  arithmetic of `Bits.dfy`), `Operations.dfy` what each operation means as integer arithmetic. `Registers.dfy` is `write_reg`, `WideWrites.dfy` the same with a value wider than
  the register, `Arithmetic.dfy` ADC and SBB with all flags, `Comparison.dfy` CMP, `Widths.dfy` what `extend`
  makes of operands of different widths, `MultiLimb.dfy` chains of ADC and SBB, `Plain.dfy` ADD, SUB and the
  chains they start, `Stack.dfy` PUSH and POP.
* **Cells and decoder.** `Layers.dfy` is the lazy cell iterator, `Region.dfy` the stack of layers and the
  decoder's 15-byte window, `Decoder.dfy` the instruction decoder for any opcode tables, `Encoding.dfy` what
  prefixes and opcode bytes mean to it, `OperandBytes.dfy` what it reads for operands, `Amd64.dfy` the
  combination with the cells.
* `AddrTrack.dfy` is the Bounded Address Tracking domain, `AddrSoundness.dfy` what its values stand for,
  `BasicBlocks.dfy` the statement iterator.

## Where code and promise differ

The model follows the code. These are the differences it makes visible.

* `Avalue::more_exact` is documented as `self <= other`; in Kset it is "denotes strictly more than"
  (`KsetDomain.MoreExactIsStrictSuperset`). The update rule of the engine relies on the code's reading.
* `stabilize` forgets that something changed when it leaves an inner component, so a loop that ends with an
  inner loop makes exactly one pass, whatever it contains (`Nested.OnePassOnly`), and can miss values
  (`NestedLoops.LoopAroundLoopMissesValues`). Under `Nested.Settles`, a condition on ordering and statements,
  the least fixpoint is reached: nothing in front of a component depends on what is assigned from there up to
  the last component. So a nested loop meets it only if its inner loops assign no name that needs a Phi at the
  outer head; the head may depend on a latch behind them (`NestedLoops.LatchedLoopIsExact`).
* `stabilize` returns after a leading component, so code behind a loop whose head is the function's entry is
  never analysed (`Nested.LeadingComponentHidesRest`).
* A guard constrains its variable on one edge, but `stabilize` narrows the variable's only entry. The result
  stays sound along a run iff the run assigns no value that a constraint excludes
  (`Narrowing.NarrowedSoundIff`); branching on x == 1 drops every other value of x
  (`Narrowing.GuardDropsValue`).
* `Kset::narrow` of two disjoint sets is an empty `Set`, not `Meet` (`KsetDomain.NarrowIsIntersection`).
* `Kset::extract`, for partial reads, keeps one bit less than the size: it is right iff the top bit of the slice
  is clear (`KsetDomain.ExtractRightIff`).
* Signed `<=` of `il::execute` compares unsigned on 64 bits (`Rreil.SignedOrderOn64Bits`): the smallest number
  is not at most 0 (`Rreil.SmallestNotBelowZero`).
* `il::execute` truncates the results of division, remainder, shifts and signed comparison, but not their
  operands (`Rreil.DivisionReadsUpperBits`, `Operations.SignedReadsUpperBits`). Results are within their size, except those of Select and of sign
  extending a negative value to fewer bits (`Rreil.BinaryReduces`, `Rreil.UnaryReducesIff`).
* `il::execute` takes the count of a left shift modulo 64: 1 << 64 is 1 (`Operations.ShiftLeftRightIff`,
  `Operations.ShiftBy64IsNone`).
* CMP and SUB keep a set CF when the second operand is 0 (`Widths.CompareCorrect`, `Plain.PlainCorrect`), so a
  multi-limb subtraction that starts with SUB is wrong exactly then (`Plain.ChainRightIff`).
* `extend` replaces a narrower second register by the first operand and zero-extends a narrower constant
  (`Widths.ExtendRightIff`): adc rax, 0xffffffff adds 0xffffffff instead of -1
  (`Widths.AdcImmediateAddsUnsigned`).
* The decoder gives the immediate byte of an 8-bit instruction the operand size (amd64/src/disassembler.rs:1129),
  so ADD, ADC, SUB, SBB and CMP of AL with an immediate work on 16, 32 or 64 bits. AL itself is right
  (`Widths.WideDestinationRight`), but `write_reg` ors the upper bits of the result into the register: family
  and register are right iff those bits were set before (`WideWrites.WroteRightIff`, `Widths.CalculateRightIff`,
  `Plain.PlainRightIff`). CF is as at 8 bits, AF and PF are right, SF and OF iff the 8-bit operation does not
  overflow, ZF iff its exact signed result is not -256 (`Widths.CalculateExtended`, `Plain.PlainExtended`,
  `Plain.CompareExtended`). add al, 0 with RAX = 0xff makes RAX 0xffffffff while AH stays 0 (`Plain.AddAlZero`);
  add al, 1 with AL = 0x7f leaves SF and OF clear (`Plain.AddAlOne`).
* POP loads its operand only if that is a 64-bit register other than RSP (`Stack.PopLoadsIff`): RSP keeps the
  advanced pointer (`Stack.PopIntoPointer`), a narrower register stays as it was while RSP moves by 8, not by
  the operand size (`Stack.NarrowPopLosesValue`).
* `Region::cover` accepts an opaque layer longer than its area, and a writable layer over a reversed area;
  `Region::iter` then panics (`Region.CoverOnce`, `Region.LongLayerBreaks`, `Region.ReversedAreaBreaks`).
* An opcode chosen by its ModR/M byte none of whose operands has a byte is decoded one byte too short
  (`Decoder.LooksAheadIff`, `Decoder.VmcallLosesModrm`).
* In a VEX prefix the decoder takes R, X and B from one bit below their place in section 2.3.5 of volume 2 of the
  Intel SDM. With two bytes, R becomes a bit of the register number in `vvvv` (`Encoding.Vex2ReadsWrongBit`).
* Bounded Address Tracking takes the sum of two addresses for an address in the region of the first: it is sound
  iff the base of the second is 0 (`AddrSoundness.AddSoundIff`, `AddrSoundness.TwoAddressesMisjudged`).
  Extending an address is sound iff it stays in the range of the old size (`AddrSoundness.ZeroExtendSoundIff`,
  `AddrSoundness.SignExtendSoundIff`).
* The module documentation of Bounded Address Tracking says that a new version of a region starts at offset 0;
  the code keeps the computed offset (`AddrSoundness.BinaryForm`).
* A move in Bounded Address Tracking keeps an unreduced constant that `il::execute` would truncate
  (`AddrTrack.MachineExactIff`, `AddrTrack.MoveKeepsUnreduced`).
* `more_exact` of Bounded Address Tracking has the orientation its documentation gives, which is the opposite of
  Kset's, so the engine drops every new value on a higher level (`AddrTrack.UpdateCoversIff`): a loop counter
  keeps its first value (`AddrTrack.CounterStays`).
* `BasicBlock::from_vec` is documented to panic on gaps; it takes the hull (`BasicBlocks.Hull`).

## Conventions

A panic or an error return of the source is `None`. Hash sets and maps are `set` and `map`; where the source
collects and sorts them, the result is proved unique, so iteration order cannot matter. Integers are
unbounded; widths, wrap-around and masks are written out. Address arithmetic of the stack is modulo 2^64.

## Model

| member | source | states |
|---|---|---|
| `KsetDomain.PermuteLoop` | abstract-interp/src/kset.rs:112-141 | On two sets: Join iff more than ten distinct constant results, Meet iff none, otherwise the sorted duplicate-free image; Join and Meet operands as in the code |
| `KsetDomain.PermuteRow` | abstract-interp/src/kset.rs:120-128 | The inner loop adds exactly the results of one row, or stops with a part of them once the limit is exceeded |
| `KsetDomain.MapLoop` | abstract-interp/src/kset.rs:142-167 | On a set: Join iff more than ten distinct constant results, Meet iff none, otherwise their sorted vector; Join and Meet stay |
| `KsetDomain.CombineLoop` | abstract-interp/src/kset.rs:226-244 | The collected and sorted vector is the specified join |
| `KsetDomain.ExecuteLoop` | abstract-interp/src/kset.rs:169-207 | Every operation computes its specification, Phi by a fold over its operands |
| `KsetDomain.ExecuteBinaryIs` | abstract-interp/src/kset.rs:112-198 | For every operation and every semantics: two sets give exactly the constants the operation has on their elements, sorted, Join beyond ten, Meet for none; a Join operand gives Join, else a Meet operand Meet |
| `KsetDomain.ExecuteUnaryIs` | abstract-interp/src/kset.rs:142-198 | The same for every operation on one operand |
| `KsetDomain.ExecuteOtherIs` | abstract-interp/src/kset.rs:194-203 | Initialize gives Meet, a Phi with one operand that operand |
| `KsetDomain.AbstractValueIs` | abstract-interp/src/kset.rs:77-91 | A constant gives the singleton of its low bits, everything else Join |
| `KsetDomain.ExtractRightIff` | abstract-interp/src/kset.rs:267-273 | On one constant, the slice without its top bit; right iff that bit is clear |
| `KsetDomain.FromSetUnique` | abstract-interp/src/kset.rs:134-136 | A sorted vector is determined by its elements, so the result does not depend on hash order |
| `KsetDomain.LeqIsInclusion` | abstract-interp/src/kset.rs:254-265 | The order on canonical values is inclusion of what they denote |
| `KsetDomain.CombineIsLub` | abstract-interp/src/kset.rs:226-244 | `combine` is the least upper bound |
| `KsetDomain.CombineCommutative` | abstract-interp/src/kset.rs:226-244 | `combine` is commutative |
| `KsetDomain.CombineAssociative` | abstract-interp/src/kset.rs:226-244 | `combine` is associative, also where sets overflow to Join |
| `KsetDomain.CombineIdempotent` | abstract-interp/src/kset.rs:226-244 | `combine` is idempotent |
| `KsetDomain.PhiIsLub` | abstract-interp/src/kset.rs:199-205 | Phi is the least upper bound of all its operands |
| `KsetDomain.PhiIgnoresOrder` | abstract-interp/src/kset.rs:199-205 | Phi depends only on which operands occur, not on order or repetition |
| `KsetDomain.NarrowIsIntersection` | abstract-interp/src/kset.rs:209-224 | `narrow` denotes exactly the intersection, and is canonical iff the two sets are not disjoint |
| `KsetDomain.MoreExactIsStrictSuperset` | abstract-interp/src/kset.rs:254-265 | `more_exact` holds iff the first denotes strictly more |
| `KsetDomain.PermuteMonotone` | abstract-interp/src/kset.rs:112-141 | `permute` is monotone in both operands, across the cap |
| `KsetDomain.MapMonotone` | abstract-interp/src/kset.rs:142-167 | `map` is monotone |
| `KsetDomain.ExecuteMonotone` | abstract-interp/src/kset.rs:111-207 | Every abstract operation is monotone |
| `Interpreter.UpdateRules` | abstract-interp/src/interpreter.rs:169-191 | While the invariant holds, both update rules (with and without widening) store exactly the transferred value, and report a change iff there is one |
| `Interpreter.RaiseKeepsGood` | abstract-interp/src/interpreter.rs:169-191 | An update keeps the invariant (below the transfer, below every post-fixpoint) and only raises values |
| `Interpreter.StatementAscends` | abstract-interp/src/interpreter.rs:154-196 | Executing any statement keeps the invariant, never lowers a value, strictly raises the rank if it reports a change, and otherwise finds the statement at its fixpoint |
| `Interpreter.BlockAscends` | abstract-interp/src/interpreter.rs:142-202 | The same for all statements of a block together |
| `Interpreter.StablePass` | abstract-interp/src/interpreter.rs:101-122 | A pass over elements that reports stability left the environment at a fixpoint of all its statements |
| `Interpreter.StabilizeIsLeastFixpoint` | abstract-interp/src/interpreter.rs:82-141 | On every flat component the result is a fixpoint below every post-fixpoint, reached within 12n+1 passes |
| `Interpreter.OrderIndependent` | abstract-interp/src/interpreter.rs:101-141 | The result is the same for every order of the elements and every head |
| `Interpreter.ResolveMeans` | abstract-interp/src/interpreter.rs:203-228 | An operand denotes the fixed value of its variable, else the current one, or the low bits of a constant, or anything |
| `Interpreter.TransferSound` | abstract-interp/src/kset.rs:111-207 | An abstract operation denotes every constant the operation can yield on denoted operands |
| `Interpreter.Soundness` | abstract-interp/src/interpreter.rs:101-202 | Along every run of any length, each assigned value is denoted by its variable's entry in the fixpoint |
| `Nested.StabilizeFrame` | abstract-interp/src/interpreter.rs:82-141 | `stabilize` changes no variable that its ordering does not assign |
| `Nested.StabilizeSettles` | abstract-interp/src/interpreter.rs:92-120 | With inner components: under `Settles` every statement is at its fixpoint at the end |
| `Nested.PassKeeps` | abstract-interp/src/interpreter.rs:101-122 | A pass that ends stable leaves a variable alone that no item up to the last component assigns |
| `Nested.LeadingComponentHidesRest` | abstract-interp/src/interpreter.rs:92-96 | What only the items behind a leading component assign has no value at the end, so the result is no fixpoint |
| `Nested.SettlingIsLeastFixpoint` | abstract-interp/src/interpreter.rs:92-120 | Under `Settles` the whole analysis yields the least fixpoint |
| `Nested.AnalysisSound` | abstract-interp/src/interpreter.rs:79-202 | Under `Settles` no run assigns a value the result does not denote |
| `NestedLoops.LoopAroundLoopMissesValues` | abstract-interp/src/interpreter.rs:115-118 | A program with an increment in the inner loop, under the semantics of `il::execute`: a run of five steps takes a value the result misses; `Settles` fails for it |
| `NestedLoops.LatchedLoopIsExact` | abstract-interp/src/interpreter.rs:101-141 | A nested loop that counts in a latch behind its inner loop, which reads the counter, meets `Settles` and is analysed to the least fixpoint |
| `Nested.OnePassOnly` | abstract-interp/src/interpreter.rs:101-141 | A component that starts with an element and ends with a component makes exactly one pass, for all statements |
| `Narrowing.NarrowedDenotes` | abstract-interp/src/interpreter.rs:122-133 | After the loop over all constraints an entry denotes exactly what it denoted before and every constraint on it admits |
| `Narrowing.NarrowedIgnoresOrder` | abstract-interp/src/interpreter.rs:122-133 | The result does not depend on the order in which the hash map yields the constraints |
| `Narrowing.NarrowedSoundIff` | abstract-interp/src/interpreter.rs:122-133 | A narrowed fixpoint covers a run iff no value along it is excluded by a constraint on its variable |
| `Narrowing.GuardDropsValue` | abstract-interp/src/interpreter.rs:122-133 | With the guard x == 1 on one edge, a run on which x is 2 is covered by no result |
| `Engine.Engine.ExecuteOne` | abstract-interp/src/interpreter.rs:154-196 | The in-place update of `ret` is the specified step |
| `Engine.Engine.RunPasses` | abstract-interp/src/interpreter.rs:101-141 | The outer loop ends, in the specified environment after the specified number of passes |
| `Engine.Engine.StabilizeComponent` | abstract-interp/src/interpreter.rs:82-141 | `stabilize`, with its early return for a leading component, computes its specification |
| `Engine.Engine.NarrowAll` | abstract-interp/src/interpreter.rs:122-133 | The loop over `constr` narrows in place as specified |
| `Engine.Engine.Approximate` | abstract-interp/src/interpreter.rs:79-345 | On flat or settling orderings `ret` ends as the least fixpoint, narrowed by the constraints; the result holds exactly the variables of recorded size, fixed values prevailing |
| `Pipeline.ExecutionInv` | analysis/src/pipeline.rs:69-128 | Every state of every interleaving keeps the invariants on locks, results, coverage, publication, failure count, waves and names |
| `Pipeline.AliasLookupSucceeds` | analysis/src/pipeline.rs:88-98 | Whenever the alias branch runs, its function lookup succeeds |
| `Pipeline.AnalyzeTerminates` | analysis/src/pipeline.rs:104-128 | No interleaving goes on for ever |
| `Pipeline.NoDeadlock` | analysis/src/pipeline.rs:69-128 | Every unfinished reachable state has an enabled step |
| `Pipeline.AnalyzeCorrect` | analysis/src/pipeline.rs:69-128 | At the end the attempted keys are the least set with the Todo entries closed under calls, each with the right verdict; failures equal the Err keys; each function carries exactly the names asked for |
| `ProgramGrowth.ExecutionGrows` | analysis/src/pipeline.rs:69-128 | In every state of every interleaving the program has its old functions, names kept and aliases added behind the old ones at the first function of an address only, and one new function for every address found |
| `ProgramGrowth.AnalyzeDelivers` | analysis/src/pipeline.rs:69-128 | At the end the new functions are one for each discovered address that disassembles, under a name of one of its Todo entries or else the default name |
| `SequentialPipeline.Roots` | analysis/src/pipeline.rs:153-170 | The first loop visits every Todo entry and keeps the worklist invariant |
| `SequentialPipeline.Round` | analysis/src/pipeline.rs:172-195 | One round keeps the invariant and, if it found nothing new, leaves no targets |
| `SequentialPipeline.RunPipeline` | analysis/src/pipeline.rs:149-195 | The loop ends with the same least set; every visit is accounted for, non-root addresses exactly once |
| `SequentialPipeline.AnalyzeRefinesPipeline` | analysis/src/pipeline.rs:69-195 | Whatever the interleaving, both versions attempt the same addresses and succeed on the same ones |
| `Rreil.ExecuteBits` | core/src/il.rs:806-859 | And, or and xor on constants act bit by bit within the width |
| `Rreil.ExecuteAdd` | core/src/il.rs:638-648 | Addition on constants is the sum modulo the width |
| `Rreil.ExecuteSubtract` | core/src/il.rs:649-658 | Subtraction on constants is the difference modulo the width |
| `Operations.ExecuteMultiply` | core/src/il.rs:660-667 | Multiplication is the product modulo 2^w |
| `Operations.ExecuteDivideUnsigned` | core/src/il.rs:674-687 | The quotient, undefined for divisor 0 |
| `Operations.ExecuteModulo` | core/src/il.rs:728-734 | The remainder, undefined for divisor 0 |
| `Operations.ExecuteDivideSigned` | core/src/il.rs:692-723 | The signed quotient cut off toward zero, modulo 2^w, undefined for divisor 0 |
| `Operations.ExecuteShiftLeft` | core/src/il.rs:739-745 | The value times 2^(count mod 64), modulo 2^w |
| `Operations.ShiftLeftRightIff` | core/src/il.rs:739-745 | That is the value times 2^count iff the count is below 64 or nothing is left anyway |
| `Operations.ShiftBy64IsNone` | core/src/il.rs:739-745 | 1 << 64 is 1 |
| `Operations.ExecuteShiftRightUnsigned` | core/src/il.rs:750-763 | The value divided by 2^count |
| `Operations.ExecuteShiftRightSigned` | core/src/il.rs:768-801 | The signed value divided by 2^count, rounded down, modulo 2^w |
| `Operations.ExecuteLessOrEqual` | core/src/il.rs:882-926 | Unsigned `<=`; signed `<=` below 64 bits |
| `Operations.UndefinedIff` | core/src/il.rs:636-1059 | An operation on two constants is undefined iff it divides by 0, selects up to bit 64 or stores |
| `Operations.ExecuteExtend` | core/src/il.rs:978-1023 | Extension keeps the unsigned or signed value modulo the new width; a negative value extended to fewer bits stays |
| `Operations.SumUnreduced` | core/src/il.rs:638-658 | Sum and difference modulo the size, whatever bits the operands have beyond it |
| `Operations.DivisionUnreduced` | core/src/il.rs:674-734 | Unsigned division and remainder read all bits of the operands; only the result is truncated |
| `Operations.ShiftUnreduced` | core/src/il.rs:750-763 | So does the unsigned right shift |
| `Operations.SignedReadsUpperBits` | core/src/il.rs:950-976 | Signed comparison reads 0x18000 of 16 bits as 0x8000 |
| `Rreil.BinaryReduces` | core/src/il.rs:636-1040 | Every result but that of Select has no bit beyond its size |
| `Rreil.UnaryReducesIff` | core/src/il.rs:978-1023 | So has every result of one operand, iff it is not the sign extension of a negative value to fewer bits than it has |
| `Rreil.SelectReplaces` | core/src/il.rs:1029-1040 | Select with a second operand within its size replaces exactly those bits of the first |
| `Rreil.DivisionReadsUpperBits` | core/src/il.rs:676-690 | 0x10000 / 2 of 16 bits is 0x8000 |
| `Rreil.SmallestNotBelowZero` | core/src/il.rs:904-926 | The smallest 64-bit number is not found to be at most 0 |
| `Rreil.SignedOrderBelow64Bits` | core/src/il.rs:904-926 | Below 64 bits the masks of signed `<=` give the signed order |
| `Rreil.SignedOrderOn64Bits` | core/src/il.rs:904-926 | On 64 bits they give the unsigned order, right iff both operands have the same sign bit |
| `Registers.ExecPart` | amd64/src/semantic.rs:326-426 | The statements for one name give it its slice of the written register, whichever name was the destination |
| `Registers.ExecPrologue` | amd64/src/semantic.rs:302-324 | The extended and shifted value reaches the temporary `val`, nothing else changes |
| `Registers.WriteRegCorrect` | amd64/src/semantic.rs:291-439 | Writing any existing register name: all names stay slices of the 64-bit register, which holds what section 3.4.1.1 of Intel SDM volume 1 says; nothing outside the family changes |
| `WideWrites.WriteAny` | amd64/src/semantic.rs:291-439 | Writing a value of any width up to 64 to any register name: all names but AH hold their slices of the merged register, AH after a write to AL its old byte; nothing outside the family changes |
| `WideWrites.DestinationRight` | amd64/src/semantic.rs:326-426 | The destination holds the low bits of the value |
| `WideWrites.WroteRightIff` | amd64/src/semantic.rs:291-439 | Family and register are right iff the bits that do not fit were already set (32-bit destination: are clear) |
| `WideWrites.WroteCoherentIff` | amd64/src/semantic.rs:291-439 | The family is coherent iff the write is not to the low byte of a family with a high byte, or the second byte of the value adds nothing to it |
| `Registers.AnyWritesKeepCoherence` | amd64/src/semantic.rs:235-439 | The same over any sequence of writes to any families |
| `Registers.PowerOnCoherent` | amd64/src/semantic.rs:235-288 | The machine with all registers zero is coherent, so coherence holds after any writes from there |
| `Registers.FamilySizes` | amd64/src/semantic.rs:235-288 | Six families have five names, IP three, the others four |
| `Arithmetic.ExecCarry` | amd64/src/semantic.rs:96-113 | The carry statements compute their comparison with the old CF, for either direction and any width |
| `Arithmetic.ExecOverflow` | amd64/src/semantic.rs:116-165 | The overflow statements compute the sign-bit formula |
| `Arithmetic.OverflowIsSignedOverflow` | amd64/src/semantic.rs:116-165 | That formula holds iff the exact signed result is out of range |
| `Arithmetic.ExecParity` | amd64/src/semantic.rs:80-93 | PF is set iff the low byte has an even number of ones |
| `Arithmetic.CarryIsOutOfRange` | amd64/src/semantic.rs:96-113 | The carry comparison holds iff the exact unsigned result is out of range |
| `Widths.ExecExtend` | amd64/src/semantic.rs:177-232 | On operands of any widths, after the extension the first reads sign-extended to the wider size, the second as the first operand (narrower register), as the zero-extended constant, or as itself |
| `Widths.ExtendFails` | amd64/src/semantic.rs:208-209 | A narrower slice that does not start at bit 0 fails the assertion |
| `Widths.ExtendRightIff` | amd64/src/semantic.rs:167-232 | Both operands used are the sign extensions iff the second is not narrower, or it is a constant whose upper bits equal its sign bit, or a register whose sign extension is the first operand |
| `Widths.ReducedConstantRightIff` | amd64/src/semantic.rs:194-200 | A narrower constant within its width is extended right iff its sign bit is clear |
| `Widths.CalculateCorrect` | amd64/src/semantic.rs:526-549 | ADC and SBB on any register and any operand of any width: at the common width result plus carry is the exact sum (difference) of the operands used, all six flags as in section 3.4.3.1 of Intel SDM volume 1; every name of the family is given, nothing else changed |
| `Widths.WideDestinationRight` | amd64/src/semantic.rs:526-549 | With a wider operand the register still gets the right low bits |
| `Widths.CalculateRightIff` | amd64/src/semantic.rs:953-977 | Register and family end right iff `extend` is right (operand not wider), or the bits of the result that do not fit were already set (operand wider) |
| `Widths.CalculateExtended` | amd64/src/semantic.rs:526-549 | ADC and SBB with a wider operand that is a sign extension: the register right; CF, AF, PF right; SF and OF right iff the narrow operation does not overflow; ZF right iff the exact signed result is not the negated modulus |
| `Widths.AdcImmediateAddsUnsigned` | amd64/src/semantic.rs:194-200 | adc rax, 0xffffffff from 0 without carry gives 0xffffffff |
| `Widths.CompareCorrect` | amd64/src/semantic.rs:850-867 | CMP on operands of any widths, with the operands used: all flags but CF as section 3.4.3.1 of Intel SDM volume 1 says at the common width; CF is right iff not (operand 0 and CF set) |
| `Widths.CompareRightIff` | amd64/src/semantic.rs:850-867 | CMP compares the sign extensions to the common width iff `extend` is right |
| `Plain.PlainCorrect` | amd64/src/semantic.rs:979-998 | ADD and SUB on any register and any operand of any width: result and all flags but CF as the manual says for the operands used at the common width; CF is the carry of ADD, and for SUB the borrow or a set CF let through by a zero operand |
| `Plain.PlainRightIff` | amd64/src/semantic.rs:979-998 | Register and family end right under the condition of ADC and SBB |
| `Plain.PlainExtended` | amd64/src/semantic.rs:979-998 | ADD and SUB with a wider operand that is a sign extension: the register right, CF as at the narrow width, the other flags as for ADC and SBB |
| `Plain.CompareExtended` | amd64/src/semantic.rs:850-867 | CMP with such an operand: the flags of SUB at the narrow width under the same conditions |
| `Plain.AddAlZero` | amd64/src/disassembler.rs:1129 | add al, 0 with RAX = 0xff gives AL 0xff, AH 0, AX 0xffff and RAX 0xffffffff |
| `Plain.AddAlOne` | amd64/src/disassembler.rs:1129 | add al, 1 with AL = 0x7f gives AL 0x80 with SF and OF clear |
| `Plain.ExecAdd` | amd64/src/semantic.rs:551-571 | ADD sets all six flags as the manual says |
| `Plain.ChainRightIff` | amd64/src/semantic.rs:551-571 | ADD then ADC, or SUB then SBB, over any number of limbs: the number and the final CF are those of the exact sum (difference) iff not (SUB of a zero limb while CF is set) |
| `Arithmetic.ExtendSame` | amd64/src/semantic.rs:177-232 | Operands of one width are left as they are, without statements |
| `MultiLimb.MultiLimbCorrect` | amd64/src/semantic.rs:953-977 | Any number of rounds linked only through CF, with arbitrary code in between: n limbs of w bits hold the sum (difference) with carry in modulo 2^(w*n), the last CF the exact carry (borrow) out |
| `MultiLimb.ChainCodeCorrect` | amd64/src/semantic.rs:526-549 | The concatenated code for limbs in different registers does the same to the machine, and touches nothing else |
| `Stack.PushCorrect` | amd64/src/semantic.rs:1643-1674 | PUSH of a 64-bit register stores it little-endian below the pointer and moves the pointer |
| `Stack.PushOperand` | amd64/src/semantic.rs:1643-1674 | PUSH of any operand of any size: the eight bytes at the new pointer load as the operand extended with its sign (or its low 64 bits), the pointer is 8 lower, all other registers are unchanged |
| `Stack.PushSignExtends` | amd64/src/semantic.rs:1649-1652 | push 0x80000000 stores 0xffffffff80000000 |
| `Stack.PopCorrect` | amd64/src/semantic.rs:1589-1625 | POP of a 64-bit register outside the RSP family loads it and moves the pointer |
| `Stack.PopIntoPointer` | amd64/src/semantic.rs:1589-1625 | POP into RSP only advances the pointer; the loaded value is lost |
| `Stack.PopElsewhere` | amd64/src/semantic.rs:1589-1625 | POP into a 64-bit variable that is no register loads it and moves the pointer |
| `Stack.PopFailsIff` | amd64/src/semantic.rs:1592 | POP is an error iff its operand is no variable from bit 0 on |
| `Stack.StackRoundTrip` | amd64/src/semantic.rs:1589-1674 | Pushing any list of registers, clobbering everything but slots and pointer, and popping in reverse restores all of them and RSP, while 8n <= 2^64 |
| `Stack.UndisturbedRoundTrip` | amd64/src/semantic.rs:1589-1674 | Without anything in between, pushing and popping any list restores every register of the machine |
| `Stack.NarrowPopLosesValue` | amd64/src/semantic.rs:1597-1605 | POP into any register below 64 bits moves RSP by 8 and changes no other register |
| `Stack.PopLoadsIff` | amd64/src/semantic.rs:1589-1625 | POP loads its operand in every coherent state iff that is a 64-bit register other than RSP |
| `Stack.LoadStored` | core/build.rs:234-255 | A little-endian load yields what was stored |
| `Stack.LittleBytes` | core/build.rs:234-255 | A little-endian store puts the least significant byte first |
| `Stack.BigBytes` | core/build.rs:234-255 | A big-endian store puts the most significant byte first |
| `Stack.LoadStoredBig` | core/build.rs:234-255 | A big-endian load yields what was stored |
| `Layers.Len` | core/src/layer.rs:191-199 | `len` is the number of cells |
| `Layers.Append` | core/src/layer.rs:186-188 | `append` is concatenation |
| `Layers.NextIsHead` | core/src/layer.rs:88-127 | `next` yields the first cell and leaves the others, None iff there is none |
| `Layers.CutIsSlice` | core/src/layer.rs:145-174 | `cut` is the clamped slice at any nesting depth; it fails iff a non-empty range starts behind the end of a strict iterator |
| `Layers.SeekDrops` | core/src/layer.rs:177-183 | `seek` never fails and drops a prefix |
| `Layers.NestedCuts` | core/src/layer.rs:145-174 | A cut of a cut is one cut |
| `Layers.Cursor.Advance` | core/src/layer.rs:88-127 | Advancing in place takes the first cell |
| `Layers.Cursor.Collect` | core/src/layer.rs:88-127 | Repeated `next` yields all cells in order |
| `Layers.ReadAfterWrite` | core/src/layer.rs:254-293 | Reading through a written layer shows the written cell at its position and every other cell as before; an opaque layer keeps its cells |
| `Layers.LayerBox.Write` | core/src/layer.rs:285-293 | The in-place write succeeds iff the layer is writable, and then changes what is read through it at that position only, whatever lies below |
| `Layers.OverlaysShowLastWrites` | core/src/layer.rs:254-293 | After any writes to a stack of writable layers and any cuts, seeks and steps, each remaining cell is the last write of the topmost layer covering its absolute position, else the base cell |
| `Region.AppliedIsPatched` | core/src/region.rs:141-160 | One layer is applied successfully iff it fits, and then replaces its area only |
| `Region.Region.Apply` | core/src/region.rs:122-135 | `cover` accepts iff the area is inside and an opaque layer is at least as long |
| `Region.Region.Cells` | core/src/region.rs:138-163 | `iter` succeeds iff every area runs forward and every opaque layer has exactly its area's length; each cell is then that of the topmost layer having one |
| `Region.CoverOnce` | core/src/region.rs:122-163 | One layer over a root: after `cover` accepted it, `iter` succeeds iff the layer fits its area |
| `Region.LongLayerBreaks` | core/src/region.rs:122-163 | Three opaque cells over an area of two are accepted and make `iter` fail |
| `Region.ReversedAreaBreaks` | core/src/region.rs:122-163 | A writable layer over the area from 2 to 1 is accepted and makes `iter` fail |
| `Region.Fetch` | amd64/src/architecture.rs:57-67 | The bytes handed to the decoder are the longest defined run from the address, at most 15 |
| `Region.WindowUnique` | amd64/src/architecture.rs:57-67 | There is only one such run |
| `Decoder.ScanPrefixes` | amd64/src/disassembler.rs:2355-2575 | The prefix loop computes the recursive specification |
| `Decoder.ScanOperands` | amd64/src/disassembler.rs:2791-2817 | The operand loop threads the tail through all operands and fails with the first failing one |
| `Encoding.PrefixMeaning` | amd64/src/disassembler.rs:2355-2575 | After any run of legacy prefixes and a REX prefix: operand size, address size, segment, hint, repeat, mandatory prefix and REX bits, from the bytes of the run |
| `Encoding.Vex2Meaning` | amd64/src/disassembler.rs:2426-2450 | What the two-byte VEX prefix sets, and when it is complete |
| `Encoding.Vex3Meaning` | amd64/src/disassembler.rs:2452-2486 | The same for three bytes |
| `Encoding.EvexMeaning` | amd64/src/disassembler.rs:2488-2523 | The same for EVEX |
| `Encoding.XopMeaning` | amd64/src/disassembler.rs:2525-2549 | The same for XOP |
| `Encoding.Vex2ReadsWrongBit` | amd64/src/disassembler.rs:2443 | R is set iff the number in `vvvv` is at least 8, and the top bit of the byte does not matter |
| `Encoding.LocateMeaning` | amd64/src/disassembler.rs:2577-2710 | Behind the escape bytes: where the opcode is, which map it is in, which prefixes are dropped, the operand size and the table entry |
| `Encoding.LocateFailsIff` | amd64/src/disassembler.rs:2577-2710 | Exactly when there is such an entry |
| `Encoding.SelectMeaning` | amd64/src/disassembler.rs:2712-2775 | The opcode chosen by the byte behind it, with its index, and the final operand size |
| `Encoding.SelectSucceedsIff` | amd64/src/disassembler.rs:2712-2775 | Exactly when there is one that is valid in the mode |
| `OperandBytes.AddressMeaning` | amd64/src/disassembler.rs:1406-1727 | An address operand has 1 to 6 bytes by its ModR/M and SIB bytes alone; it can be read iff they are there and its registers exist; fields, SIB and displacement are the right bytes |
| `OperandBytes.OperandsAre` | amd64/src/disassembler.rs:2791-2817 | Every operand is made from its own bytes behind those of the operands before it, ModR/M and SIB read once |
| `OperandBytes.DecodeMeaning` | amd64/src/disassembler.rs:2780-2851 | The length is the position behind the opcode plus the operand bytes in order; the result is that of the semantic function on these operands |
| `OperandBytes.LengthWithAddress` | amd64/src/disassembler.rs:2791-2851 | Registers, one address and immediates: the length in closed form |
| `OperandBytes.MovFromFrame` | amd64/src/disassembler.rs:1553-1569 | 8B 45 08 decodes with length 3 |
| `Decoder.PrefixesLocal` | amd64/src/disassembler.rs:2355-2575 | The prefixes are determined by the bytes up to the opcode |
| `Decoder.AddressLocal` | amd64/src/disassembler.rs:1406-1727 | ModR/M, SIB and displacement bytes, with their caches, depend only on consumed bytes and advance within the buffer |
| `Decoder.DecodeLocal` | amd64/src/disassembler.rs:2329-2920 | For all tables: two buffers with the same looked-at bytes decode alike; at least one byte is consumed, at most one more is looked at |
| `Decoder.DecodeStable` | amd64/src/disassembler.rs:2329-2920 | Appending bytes never changes a successful result, and 1 <= len <= buffer length |
| `Decoder.DecodeNeeds` | amd64/src/disassembler.rs:2329-2920 | A shortened buffer gives the same result iff it has all looked-at bytes, and fails otherwise |
| `Decoder.LooksAheadIff` | amd64/src/disassembler.rs:2712-2762 | The decoder looks one byte past the consumed ones iff the table entry is a group, or an x87 escape with ModR/M below 0xc0, and no operand layout of the selected opcode has a byte |
| `Decoder.ConsumedBytesSuffice` | amd64/src/disassembler.rs:2712-2851 | The consumed bytes alone decode alike iff the tables do not lose the ModR/M byte in that way |
| `Decoder.OperandsTake` | amd64/src/disassembler.rs:2791-2817 | The operands consume nothing iff none of their layouts has a byte |
| `Decoder.VmcallLosesModrm` | amd64/src/disassembler.rs:2181-2184 | 0F 01 C1 decodes with length 2, and 0F 01 alone does not decode |
| `Amd64.DecodeAt` | amd64/src/architecture.rs:57-82 | A match is what the decoder makes of the window at the address; its tokens are the first 1 to 15 bytes there |
| `Amd64.DecodeIgnoresOtherCells` | amd64/src/architecture.rs:57-82 | Changing cells behind the looked-at bytes does not change the match |
| `AddrTrack.CombineIsLub` | abstract-interp/src/bounded_addr_track.rs:474-513 | `combine` is the least upper bound of Meet < Offset < Region < Join |
| `AddrTrack.PhiIsLub` | abstract-interp/src/bounded_addr_track.rs:456-462 | Phi is the least upper bound of its operands |
| `AddrTrack.PhiIgnoresOrder` | abstract-interp/src/bounded_addr_track.rs:456-462 | Phi depends only on which operands occur |
| `AddrTrack.VersionsBounded` | abstract-interp/src/bounded_addr_track.rs:71-93 | No run along any path creates a region version above the limit |
| `AddrSoundness.TrackingSound` | abstract-interp/src/bounded_addr_track.rs:112-468 | Whatever the bases of the regions: along every run that adds no two addresses, extends no address out of its range and does nothing else with an offset, every value is denoted by its entry |
| `AddrSoundness.AddSoundIff` | abstract-interp/src/bounded_addr_track.rs:174-206 | Addition denotes the sum iff not both operands are addresses, or the base of the second is 0 |
| `AddrSoundness.ZeroExtendSoundIff` | abstract-interp/src/bounded_addr_track.rs:405-412 | Zero extension denotes the result iff the address stays in the range of the old size |
| `AddrSoundness.SignExtendSoundIff` | abstract-interp/src/bounded_addr_track.rs:414-421 | Sign extension likewise, for the signed address |
| `AddrSoundness.MoveSound` | abstract-interp/src/bounded_addr_track.rs:403 | A move denotes the moved value |
| `AddrSoundness.PhiSound` | abstract-interp/src/bounded_addr_track.rs:456-462 | A Phi denotes the value of each operand |
| `AddrSoundness.GlobalSound` | abstract-interp/src/bounded_addr_track.rs:112-400 | On constants within their size every operation gives the constant of `il::execute`, or Join if there is none |
| `AddrSoundness.BinaryForm` | abstract-interp/src/bounded_addr_track.rs:71-468 | No offset: Join. Addition keeps region and version, Select of an address is Join, any other operation raises the version by one or is Join at the limit |
| `AddrSoundness.UnaryForm` | abstract-interp/src/bounded_addr_track.rs:403-421 | Move is the identity, extension keeps the region, calls and loads give Join |
| `AddrSoundness.TwoAddressesMisjudged` | abstract-interp/src/bounded_addr_track.rs:186-203 | A stack plus a heap address is taken for an offset on the stack that it is not |
| `AddrTrack.OperationExactIff` | abstract-interp/src/bounded_addr_track.rs:112-468 | An operation with a constant result is computed exactly iff it is no move that truncates its operand |
| `AddrTrack.StraightLineExactIff` | abstract-interp/src/bounded_addr_track.rs:112-468 | On straight-line SSA code whose operations yield constants, the environment is the concrete one in the global region iff no move truncates its operand |
| `AddrTrack.MovesExactIff` | abstract-interp/src/bounded_addr_track.rs:403 | Under `il::execute`, from values within their sizes, without Select and sign extension to fewer bits: all moves of a run are exact iff no immediate that is moved has bits beyond its size |
| `AddrTrack.MachineExactIff` | abstract-interp/src/bounded_addr_track.rs:112-468 | So on such straight-line code the domain computes the constants of `il::execute` iff the code moves no such immediate |
| `AddrTrack.MoveKeepsUnreduced` | abstract-interp/src/bounded_addr_track.rs:403 | Moving a 16-bit constant with all 64 bits set keeps them, although its value is 0xffff |
| `AddrTrack.UpdateCoversIff` | abstract-interp/src/bounded_addr_track.rs:523-538 | An update stores a value covering the new one iff that is on no higher level than the current one; a value above the current one is always dropped |
| `AddrTrack.CounterStays` | abstract-interp/src/interpreter.rs:182-191 | For every semantics, first value and step: two passes over a counting loop end stable with the first value as the counter's entry |
| `BasicBlocks.StatementIterator.GetNext` | core/src/basic_block.rs:43-58 | Opens mnemonics, also empty ones, until there is a statement |
| `BasicBlocks.StatementIterator.Next` | core/src/basic_block.rs:61-75 | Yields the first remaining statement, None iff there is none |
| `BasicBlocks.StatementIterator.Drain` | core/src/basic_block.rs:30-75 | Yields all statements in order |
| `BasicBlocks.Visit` | core/src/basic_block.rs:121-130 | `execute` visits the same sequence |
| `BasicBlocks.VisitBackwards` | core/src/basic_block.rs:109-118 | `execute_backwards` visits exactly its reverse |
| `BasicBlocks.Hull` | core/src/basic_block.rs:94-106 | The area is the hull of all mnemonics; for contiguous ones it runs from the first start to the last end |

## Left out

- Engine.Engine.Approximate: edge constraints together with inner components, where the source narrows after every component; how guards become constraints is an input.
- Partial reads of variables in programs, and memory operations in the Kset domain: reads have the full width, operations are pure.
- `il::execute` simplifies some operations with one undefined operand; here undefined operands give an undefined result.
- Nested.StabilizeSettles: `Settles` is sufficient, not necessary; outside it, whether the fixpoint is reached depends on the values, except behind a leading component, where it never is.
- Nested.SettlingIsLeastFixpoint: the same.
- Nested.AnalysisSound: the same.
- Fixed values for names the program never assigns: their reads go through `Kset::extract`.
- The order of graph vertices (`weak_topo_order`), SSA conversion and the collection of call addresses are inputs.
- Call-graph edges and leftover Todo entries in `Program::insert`, channels, logging and the concurrent map itself: a key's upsert is atomic per key.
- Instructions other than ADC, SBB, ADD, SUB, CMP, PUSH and POP.
- Opcode tables, operand meaning, register names and mnemonic formatting of the decoder: arbitrary functions.
- Layers.Cursor.Advance: the nested iterator is one value that is replaced as a whole; updates inside its boxes and the `u64` range of positions are not modelled.
- Reading files into layers, the `Read` implementation of the iterator, region graphs and projects.
- A fixpoint theorem for Bounded Address Tracking: the update rule does not ascend for it.
- AddrSoundness.TrackingSound: operations other than addition, extension, moves and Phi on two offsets; those on addresses start a new region version, whose base the model does not fix.
- AddrTrack.MachineExactIff: with Select or a sign extension to fewer bits the condition depends on the values, as `AddrTrack.StraightLineExactIff` states it.
- `widening.rs`, `results`, AVR, the user interface and the command line.
