# evm-dis core in Dafny

This project models the analysis core of evm-dis, a disassembler and
control-flow-graph builder for EVM bytecode. The analyser is written in
Dafny; the files modelled here are its Python translation under
`build/libs/driver-py/`.

What is modelled:

- **Instructions** (`Instructions.dfy`). An `Instruction(op, arg, address)` has three parts:
  - a validity check on its argument;
  - a forward abstract step `NextState` over `EState(pc, stack)` / `Error`, where a stack slot holds `Value(v)` or `Random`;
  - a backward weakest-precondition transformer `WPre` over the conditions `StTrue | StFalse | StCond(positions, values)`.

  A backward stack-position tracker resolves jump targets. The transformer and the tracker each appear twice:
  - `WPreAsWritten` and `StackPosBackWardTracker` follow the code exactly;
  - `WPre` and `StackPosTracker` correct the operator cases of the Findings. The rest of the model is stated over the corrected ones.
- **Segments** (`LinSegments.dfy`). These are the six kinds of linear segment, with:
  - the folds over their instructions: stack effect, forward run, backward weakest precondition;
  - the analyser's own backward folds over the as-written transformer (`WPreInsAsWritten`, `LinSeg.WPreAsWritten`, `LinSeg.LeadsToAsWritten`, `WPreSeqSegsAsWritten`);
  - the weakest precondition along a path of segments;
  - the lookup of a segment by start address;
  - JUMPDEST collection;
  - the exit rules and the `LeadsTo` rule.
- **Partitions** (`PartitionMod.dfy`). A partition of {0..n-1} is a sequence of classes. It supports splitting a class, class lookup, equivalence, the two refinement tests, and the iterated split.
- **Proof objects** (`ProofObject.dfy`). These are the three kinds of proof object, and the validity rule that ties them to a segment kind.
- **Decimal parsing** (`Driver.dfy`). This covers the digit test and the decimal reading that the driver uses for numeric options.
- **Command-line options** (`ArgParser.dfy`). This is the option registry and the lookup of an option's arguments.

Supporting modules hold what the analyser imports from files that are not part of this model. They are written down from how the modelled code uses them:

- `MiscTypes`, `Int`, `EVMConstants`, `EVMOpcodes`, `Hex`, `StackElement`, `State`, `WeakPre`.
- Opcode numbers follow Appendix H of the Ethereum Yellow Paper, plus EIP-3855 for PUSH0.
- The stack effect of an opcode is `pushes - pops` (`Opcode.StackEffect`); `NextStateStackEffect`, `RunIns` and `SegRunStackEffect` are stated in terms of it.
- An opcode descriptor's arity is constrained by `Opcode.WellFormed` (pops and pushes per opcode class) rather than listed opcode by opcode.

The central results:

- **Duality.** For one instruction (`WPreExact`), a run of instructions (`WPreInsExact`), a segment (`SegWPreExact`) and a path of segments (`WPreSeqSegsExact`): a state satisfies the corrected weakest precondition of a condition exactly when the state reached satisfies the condition. For a path, this also includes landing where the path says.
- **The analyser's own folds.** On instructions, segments and paths without the opcodes of the Findings, the as-written folds equal the corrected ones (`WPreInsAgreement`, `SegAgreement`, `WPreSeqSegsAgreement`), so duality holds for them there (`WPreInsAsWrittenExact`, `SegWPreAsWrittenExact`, `LeadsToAsWrittenExact`, `WPreSeqSegsAsWrittenExact`).
- **`LeadsTo`.** It holds exactly when a segment ends at the given address (`LeadsToExact`).
- **Backward tracker.** It agrees both with the transformer and with the forward step (`TrackerAgreesWithWPre`, `TrackerSound`); the corrected tracker does so for every operator arity (`TrackerCorrectedAgreesWithWPre`, `TrackerCorrectedSound`).
- **Partition splits.** Splitting keeps a partition valid and refines it (`SplitAtValid`, `SplitAll`).
- **Decimal parsing.** It inverts printing (`StringToNatRoundTrip`).
- **Option lookup.** It returns exactly the tokens after the first occurrence of the option (`GetArgsExact`).

## Model

| member | source | states |
|---|---|---|
| Instructions.GetArgValuePush | build/libs/driver-py/Instructions.py:26-28 | the PUSH literal is the argument's hex value (left zero padding to 64 digits changes nothing) and is below 2^256 |
| Instructions.IsValidIff | build/libs/driver-py/Instructions.py:48-53 | for any opcode but INVALID, these are the only two ways an instruction is valid, in both directions: a PUSHn with exactly 2n hex digits, or another opcode with an empty argument |
| Instructions.PushLiteralBound | build/libs/driver-py/Instructions.py:26-28 | the literal of a valid PUSHn fits in n bytes |
| Instructions.ExitOnlyOnJumps | build/libs/driver-py/Instructions.py:205-400 | every instruction other than JUMP and JUMPI fails when run with the exit flag set |
| Instructions.PopPushStep | build/libs/driver-py/Instructions.py:207-400 | an arithmetic, comparison, bitwise, environment, memory, storage or system operator runs exactly when the stack holds `pops` slots; it then puts `pushes` unknown slots on top of the untouched rest, changes the size by the stack effect and advances pc by one |
| Instructions.KeccakStep | build/libs/driver-py/Instructions.py:246-258 | KECCAK256 runs exactly when two slots are present and replaces them by one unknown slot, whatever its descriptor says |
| Instructions.PushStep | build/libs/driver-py/Instructions.py:367-368 | PUSHn always runs on the fall-through branch, pushes the literal of its argument on the unchanged stack and advances pc by 1 + n |
| Instructions.DupStep | build/libs/driver-py/Instructions.py:369-370 | DUPn runs exactly on the fall-through branch of a stack with at least n slots, and then copies slot n-1 on top and advances pc by one |
| Instructions.SwapStep | build/libs/driver-py/Instructions.py:371-372 | SWAPn runs exactly on the fall-through branch of a stack with more than n slots, and then exchanges slots 0 and n and advances pc by one |
| Instructions.JumpStep | build/libs/driver-py/Instructions.py:313-324 | JUMP runs exactly on the taken branch with a known value on top, and then pops it and jumps to that value |
| Instructions.JumpiStep | build/libs/driver-py/Instructions.py:325-339 | JUMPI runs exactly when two slots are present and the top one is known, on either branch; it pops two and goes to the target or to pc + 1 |
| Instructions.FallThroughPc | build/libs/driver-py/Instructions.py:205-400 | on the fall-through branch every instruction but INVALID moves pc past itself and its argument bytes |
| Instructions.NextStateStackEffect | build/libs/driver-py/Instructions.py:205-400 | every successful step changes the stack size by the opcode's stack effect |
| Instructions.WPreOperatorShape | build/libs/driver-py/Instructions.py:404-477 | the as-written transformer of an arithmetic, comparison, bitwise or KECCAK256 operator is false exactly when slot 0 is tracked, and otherwise keeps the literals and moves every position by the operator's fixed offset |
| Instructions.WPreJumpDest | build/libs/driver-py/Instructions.py:558-559 | the transformer of JUMPDEST is the identity |
| Instructions.WPrePushExact | build/libs/driver-py/Instructions.py:596-619 | the transformer of PUSH holds on a stack exactly when the condition holds once the literal is pushed on it |
| Instructions.WPreDupExact | build/libs/driver-py/Instructions.py:620-651 | the transformer of DUPn holds on a stack exactly when the condition holds after slot n-1 is copied on top |
| Instructions.WPreSwapExact | build/libs/driver-py/Instructions.py:653-662 | the transformer of SWAPn holds on a stack exactly when the condition holds after slots 0 and n are exchanged |
| Instructions.WPreExact | build/libs/driver-py/Instructions.py:402-717 | for every instruction that runs from a state, on either branch, the state satisfies the (corrected) weakest precondition exactly when the successor satisfies the condition |
| Instructions.TrackerAgreesWithWPre | build/libs/driver-py/Instructions.py:77-203 | the backward tracker maps a position as the as-written transformer maps a one-slot condition on it; a PUSH literal it returns decides that condition |
| Instructions.TrackerSound | build/libs/driver-py/Instructions.py:77-203 | after a step, the tracked slot holds what the tracker says: the slot it names before the step, or the pushed literal, and the slot exists exactly when its source does (arithmetic operators taking two operands) |
| Instructions.TrackerAsWrittenUnsound | build/libs/driver-py/Instructions.py:79-89 | for an arithmetic operator that does not take two operands, the tracker sends slot 1 to slot 2, although after the step slot 1 holds the old slot `pops`, which may differ |
| Instructions.TrackerCorrectedSound | build/libs/driver-py/Instructions.py:77-203 | the tracker that moves arithmetic operators by pops - pushes is sound for every arity: the tracked slot holds what it says after the step |
| Instructions.TrackerCorrectedAgreesWithWPre | build/libs/driver-py/Instructions.py:77-203 | the corrected tracker maps a position as the corrected transformer maps a one-slot condition on it |
| Instructions.WPreAgreement | build/libs/driver-py/Instructions.py:402-717 | the as-written and corrected transformers agree on every opcode except arithmetic operators that do not pop two and system operators that return a word; on those they differ for every condition that leaves slot 0 free |
| Instructions.PopPushOne | build/libs/driver-py/Instructions.py:404-420 | for a one-result arithmetic or system operator, "slot 1 holds v" after the step is looked up by the as-written transformer at slot 2 (arithmetic) or 1 + pops (system), and by the corrected one at slot pops, which is where the successor's slot 1 comes from |
| Instructions.ArithAsWrittenUnsound | build/libs/driver-py/Instructions.py:404-420 | for an arithmetic operator that does not pop two, a state exists that the as-written precondition accepts although its successor violates the condition, and the corrected precondition rejects it |
| Instructions.SysAsWrittenUnsound | build/libs/driver-py/Instructions.py:696-717 | the same for a system operator that returns a word |
| Instructions.FindingWitnesses | build/libs/driver-py/Instructions.py:404-420 | ADDMOD and CREATE, with concrete stacks, meet the hypotheses of the two unsoundness lemmas |
| LinSegments.StackEffectConcat | build/libs/driver-py/LinSegments.py:29-40 | the summed stack effect of a concatenation is the sum of the parts' |
| LinSegments.RunIns | build/libs/driver-py/LinSegments.py:75-94 | a successful run changes the stack size by the summed stack effect |
| LinSegments.RunInsConcat | build/libs/driver-py/LinSegments.py:75-94 | running a concatenation runs the first part and then, unless it failed, the second |
| LinSegments.RunInsPc | build/libs/driver-py/LinSegments.py:75-94 | a contiguous run without INVALID that starts at its first address ends right after its last instruction |
| LinSegments.WPreIns | build/libs/driver-py/LinSegments.py:97-111 | the backward fold over the corrected transformer returns a well-formed condition and leaves StTrue and StFalse unchanged |
| LinSegments.WPreInsAgreement | build/libs/driver-py/LinSegments.py:97-111 | on instructions without the opcodes of the Findings, the analyser's fold over the as-written transformer equals the fold over the corrected one |
| LinSegments.WPreInsAsWrittenExact | build/libs/driver-py/LinSegments.py:97-111 | on such instructions the analyser's own fold is exact: a state satisfies it exactly when a successful run from it ends in a state satisfying the condition |
| LinSegments.WPreInsConcat | build/libs/driver-py/LinSegments.py:97-111 | the backward fold over a concatenation transforms by the second part first |
| LinSegments.WPreInsExact | build/libs/driver-py/LinSegments.py:97-111 | a state satisfies the corrected fold's weakest precondition exactly when a successful run from it ends in a state satisfying the condition |
| LinSegments.LinSeg.Ins | build/libs/driver-py/LinSegments.py:219-220 | the instruction list is non-empty, ends with the last instruction and starts with the body |
| LinSegments.LinSeg.CollectJumpDest | build/libs/driver-py/LinSegments.py:237-259 | an address is collected exactly when some JUMPDEST of the list has it, and no more addresses than instructions are returned |
| LinSegments.CollectJumpDestConcat | build/libs/driver-py/LinSegments.py:237-259 | collection over a concatenation is the collections of the parts, in order |
| LinSegments.CollectJumpDestOne | build/libs/driver-py/LinSegments.py:237-259 | one instruction contributes its address exactly when it is a JUMPDEST |
| LinSegments.RunIsRunIns | build/libs/driver-py/LinSegments.py:267-272 | running a segment on the fall-through branch is running all its instructions |
| LinSegments.SegWPreExact | build/libs/driver-py/LinSegments.py:274-275 | a state satisfies a segment's corrected weakest precondition exactly when a successful run of the segment from it, on either branch, ends in a state satisfying the condition |
| LinSegments.SegAgreement | build/libs/driver-py/LinSegments.py:274-275 | on a segment without the opcodes of the Findings, the analyser's segment transformer and `LeadsTo` equal the corrected ones |
| LinSegments.SegWPreAsWrittenExact | build/libs/driver-py/LinSegments.py:274-275 | on such a segment the analyser's own segment transformer is exact on either branch |
| LinSegments.SegRunStackEffect | build/libs/driver-py/LinSegments.py:231-232 | when the recorded effect is the instructions' own, a successful run changes the stack size by exactly the segment's stack effect |
| LinSegments.SegFallThroughPc | build/libs/driver-py/LinSegments.py:234-235 | on the fall-through branch a contiguous segment ends at the start address of the next segment |
| LinSegments.ValidSegKind | build/libs/driver-py/LinSegments.py:186-217 | a valid segment is INVALID exactly when it ends in INVALID; ending in RETURN, STOP/REVERT, JUMP or JUMPI leaves only that kind or the fall-through kind |
| LinSegments.HasExitSound | build/libs/driver-py/LinSegments.py:277-308 | a jump segment, or a fall-through segment whose last instruction is neither JUMP nor JUMPI, that runs on a branch has a successor on that branch |
| LinSegments.HasExitGap | build/libs/driver-py/LinSegments.py:186-217 | the kind rule admits every fall-through segment ending in JUMPI, and one whose body leaves a known value on top of at least two slots runs on the taken branch although it has no successor there |
| LinSegments.LeadsToFixed | build/libs/driver-py/LinSegments.py:310-357 | `LeadsTo` is false beyond 2^256 and for INVALID segments, and true for terminal segments |
| LinSegments.LeadsToExact | build/libs/driver-py/LinSegments.py:310-357 | for a jump or fall-through segment run from its start on a branch it has, `LeadsTo(k, exit)` over the corrected fold holds exactly when the run ends at address k |
| LinSegments.LeadsToAsWrittenExact | build/libs/driver-py/LinSegments.py:310-357 | the same for the analyser's own `LeadsTo`, on segments without the opcodes of the Findings |
| LinSegments.PCToSeg | build/libs/driver-py/LinSegments.py:136-151 | returns the least index at or after `rank` whose segment starts at pc, and None exactly when there is none |
| LinSegments.WPreSeqSegsExact | build/libs/driver-py/LinSegments.py:114-133 | along a path of jump or fall-through segments started at the first one, the corrected path condition holds exactly when the final state satisfies the condition and every segment ends where the next starts, the last at the target |
| LinSegments.WPreSeqSegsAgreement | build/libs/driver-py/LinSegments.py:114-133 | on a path without the opcodes of the Findings, the analyser's path condition equals the corrected one |
| LinSegments.WPreSeqSegsAsWrittenExact | build/libs/driver-py/LinSegments.py:114-133 | on such a path the analyser's own path condition is exact, as in `WPreSeqSegsExact` |
| PartitionMod.Partition.SplitAt | build/libs/driver-py/PartitionMod.py:89-100 | keeps n and the other classes in order, drops the split class and appends its two halves, the second only when it is non-empty (the first is appended even when empty); the class count grows by one exactly when both halves are non-empty |
| PartitionMod.SplitAtShape | build/libs/driver-py/PartitionMod.py:89-100 | the appended classes are non-empty parts of the split class that together hold all of it |
| PartitionMod.SplitAtRefines | build/libs/driver-py/PartitionMod.py:122-131 | the result of a split refines the original partition |
| PartitionMod.SplitAtValid | build/libs/driver-py/PartitionMod.py:89-100 | a split of a valid partition is valid, covers the same elements and refines the original |
| PartitionMod.Partition.GetClass | build/libs/driver-py/PartitionMod.py:102-117 | returns the least class index at or after the start that holds x |
| PartitionMod.EquivIff | build/libs/driver-py/PartitionMod.py:119-120 | on a valid partition, two elements are equivalent exactly when one class holds both |
| PartitionMod.EquivIsEquivalence | build/libs/driver-py/PartitionMod.py:119-120 | equivalence is reflexive, symmetric and transitive |
| PartitionMod.Refines2Refl | build/libs/driver-py/PartitionMod.py:122-131 | every partition refines itself |
| PartitionMod.Refines2Trans | build/libs/driver-py/PartitionMod.py:122-131 | refinement is transitive |
| PartitionMod.SplitAll | build/libs/driver-py/PartitionMod.py:37-61 | the iterated split keeps n, never loses classes (so the result `Refines` the input) and turns a valid partition into a valid refinement of it |
| ProofObject.ValidKinds | build/libs/driver-py/ProofObject.py:61-81 | a jump object is valid exactly on JUMP/JUMPI segments, a continuation on fall-through segments, a terminal object on RETURN/STOP segments; no proof object wraps an INVALID segment and every other segment has exactly one kind of valid proof object |
| ProofObject.ValidExits | build/libs/driver-py/ProofObject.py:61-81 | a valid proof object over a valid segment does not end in INVALID, and its segment has the successors `HasExit` gives for its variant: a jump object one on the taken branch (ending in JUMP or JUMPI), a continuation one only on the fall-through branch, a terminal object none (ending in RETURN, STOP or REVERT); it does not state how a run of the segment ends |
| ProofObject.TerminalFallsThrough | build/libs/driver-py/ProofObject.py:61-81 | a valid terminal object has no recorded successor, yet when its last instruction takes the ordinary pop/push step and enough slots remain, its segment runs on the fall-through branch to the address after that instruction |
| ProofObject.ProofObj.CollectJumpDest | build/libs/driver-py/ProofObject.py:83-84 | an address is collected exactly when a JUMPDEST of the whole segment, last instruction included, has it |
| ProofObject.CollectJumpDestSplit | build/libs/driver-py/ProofObject.py:83-84 | the collected addresses are the body's followed by the last instruction's when it is a JUMPDEST, and only the body's for valid jump and terminal objects |
| ProofObject.StackEffectSound | build/libs/driver-py/ProofObject.py:86-87 | when the recorded effect is the instructions' own, running the segment changes the stack size by the proof object's stack effect |
| Driver.CharToDigit | build/libs/driver-py/Driver.py:189-211 | returns a digit exactly for '0'..'9', and then its value, below 10 |
| Driver.IsNatNumberIff | build/libs/driver-py/Driver.py:214-229 | a non-empty string passes exactly when all its characters are decimal digits |
| Driver.IsNatNumberPrefix | build/libs/driver-py/Driver.py:214-229 | every non-empty prefix of a passing string passes |
| Driver.StringToNat | build/libs/driver-py/Driver.py:232-237 | the value of an n-digit string is below 10^n |
| Driver.StringToNatValue | build/libs/driver-py/Driver.py:232-237 | reading from the last digit back equals the positional value read from the first digit, whatever `lastVal` is |
| Driver.StringToNatRoundTrip | build/libs/driver-py/Driver.py:232-237 | parsing the decimal digits of any natural number gives it back |
| ArgParser.New | build/libs/driver-py/ArgParser.py:101-105 | a fresh parser knows only "--help", with no arguments and short name "-h", and is well formed |
| ArgParser.ArgumentParser.AddOption | build/libs/driver-py/ArgParser.py:107-111 | registers the option under its long name and its short name, leaves every other entry alone, appends the long name only when it is new, and keeps the registry well formed (distinct keys matching the options) |
| ArgParser.ArgumentParser.Canonical | build/libs/driver-py/ArgParser.py:171-175 | a short name maps to its long name and any other token to itself; on a well-formed registry the result is a registered option or the token itself |
| ArgParser.ArgumentParser.GetArgs | build/libs/driver-py/ArgParser.py:145-169 | fails on an empty token list and on an unknown key, and a success carries exactly as many tokens as the option takes |
| ArgParser.GetArgsExact | build/libs/driver-py/ArgParser.py:145-169 | succeeds exactly when a token names the option and enough tokens follow the first such token, and then returns the tokens right after it |
| ArgParser.AddThenGet | build/libs/driver-py/ArgParser.py:107-111 | after registering an option, its short name followed by enough tokens yields those tokens |
| ArgParser.ArgumentParser.MaxValueFast | build/libs/driver-py/ArgParser.py:177-192 | the result is at least the start value and every string's length, and equals one of them |

## Left out

- `Driver.Main`, the control-flow-graph construction and the minimiser. Their modules are not part of this model.
- `Instruction.ToString`, `PrintHelp`, `PrintPartition` and the argument-parser demo: these are text output.
- Opcode-table queries other than the stack effect: `IsTerminal`, `WeakestPreOperands`, `WeakestPreCapacity`, and the segment-level `WeakestPreOperands`/`WeakestPreCapacity` helpers. They are defined in a module that is not part of this model.
- The opcode table itself. Descriptors are constrained by `Opcode.WellFormed` (pops and pushes per class) rather than listed; a descriptor outside those shapes is not covered by the lemmas.
- `StackResolver` and the `stacks` field of proof objects: their contents come from a builder that is not part of this model, so they are a placeholder `map<nat, nat>`. `wpOp` and `wpCap` are plain integers.
- Error and failure messages: only the `Error` / `Failure` tag is modelled.
- `WeakPre.And` and `SeqOfSets.SplitSet` are not part of the shown code. They are given the obvious definitions: `And` merges the two position lists and is false on a clash, and `SplitSet` splits by the predicate.
- The segment accessors `NetOpEffect`, `NetCapEffect` (0 minus the recorded effect), `StackEffect` and `StartAddress` are plain definitions. They are used by the lemmas above and carry no contract of their own.
- Instructions.TrackerSound: assumes that arithmetic operators pop two, because for ADDMOD and MULMOD the as-written tracker is wrong (see Findings); `TrackerCorrectedSound` covers every arity.
- LinSegments.WPreIns: folds the corrected transformer; the analyser's fold is `WPreInsAsWritten`, and the two are proved equal on instructions without the opcodes of the Findings (`WPreInsAgreement`).
- LinSegments.WPreInsExact: holds for the corrected fold; for the analyser's fold it is stated only without the opcodes of the Findings (`WPreInsAsWrittenExact`), because with them it can accept states it should not (see Findings).
- LinSegments.SegWPreExact: holds for the corrected segment transformer; for the analyser's own it is stated only without the opcodes of the Findings (`SegWPreAsWrittenExact`).
- LinSegments.LeadsToExact: holds for `LeadsTo` over the corrected fold; for the analyser's own `LeadsTo` it is stated only without the opcodes of the Findings (`LeadsToAsWrittenExact`).
- LinSegments.WPreSeqSegsExact: holds for the corrected path condition; for the analyser's own it is stated only on paths without the opcodes of the Findings (`WPreSeqSegsAsWrittenExact`).
- LinSegments.HasExitSound: excludes fall-through segments ending in JUMP or JUMPI, which the analyser's `IsValid` admits but which can run on the taken branch without a successor (`HasExitGap`).
- Driver.StringToNat: requires a non-empty string of digits. The driver only calls it on such strings.
- PartitionMod.SplitAll: does not state that exactly `max - index` splits happen, only their combined effect.
- PartitionMod.SplitAll: requires `index <= max`. The analyser's loop never ends when `index > max`, and this case is not modelled.
- ProofObject.ValidExits: states the successors `HasExit` records, not how a run ends. A continuation over a fall-through segment ending in JUMPI can run on the taken branch (`HasExitGap`), and a terminal object whose last instruction takes the ordinary pop/push step runs on the fall-through branch to the address after it (`TerminalFallsThrough`).
- LinSegments.ValidPath: requires exactly one branch per segment of the path. The analyser's path fold reads the branches from the end and ignores extra leading ones, so it also accepts more branches than segments; that case is not modelled.
- The argument parser is an immutable record whose `AddOption` returns the updated parser, in place of a mutable object.

## Findings

| source | as written | input that shows it | evidently intended | confidence | as-written member | corrected member |
|---|---|---|---|---|---|---|
| build/libs/driver-py/Instructions.py:404-420 | the weakest precondition of every arithmetic operator shifts positions by +1, as if every one popped two and pushed one | ADDMOD (pops 3, pushes 1), condition "slot 1 holds 5", stack [1, 2, 5, 9]: the as-written precondition checks slot 2 (5, accepted), but after ADDMOD slot 1 is the old slot 3 (9) | shift by pops - pushes, i.e. +2 for ADDMOD and MULMOD | not executed | Instructions.ArithAsWrittenUnsound | Instructions.WPreExact |
| build/libs/driver-py/Instructions.py:79-89 | the backward tracker sends slot k >= 1 after every arithmetic operator to slot k + 1, whatever its arity | ADDMOD (pops 3, pushes 1), stack [1, 2, 5, 9]: the tracker sends slot 1 to slot 2 (5), but after ADDMOD slot 1 is the old slot 3 (9) | send slot k to slot k + pops - pushes, as for comparison operators | not executed | Instructions.TrackerAsWrittenUnsound | Instructions.TrackerCorrectedSound |
| build/libs/driver-py/Instructions.py:696-717 | a system operator that pushes a word shifts positions by pops, as if it pushed nothing | CREATE (pops 3, pushes 1), condition "slot 1 holds 5", stack [1, 2, 3, 9, 5]: the as-written precondition checks slot 4 (5, accepted), but after CREATE slot 1 is the old slot 3 (9) | shift by pops - 1 when one word is pushed | not executed | Instructions.SysAsWrittenUnsound | Instructions.WPreExact |

The as-written transformer is `Instructions.Instruction.WPreAsWritten`. `Instructions.FindingWitnesses` shows that the two inputs above meet the hypotheses of the unsoundness lemmas. The corrected transformer, `Instructions.Instruction.WPre`, differs only in the two transformer cases (`Instructions.WPreAgreement`). `LinSegments` states its results over it, and the analyser's own folds agree with it on segments without those opcodes. The corrected tracker is `Instructions.Instruction.StackPosTracker`.
