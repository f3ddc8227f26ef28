# Enigma work language: a Dafny model

XEL nodes run work packages written in the Enigma work language, a small C-like
language. This project models four parts of that system:

- **Typed operators** (`EnigmaMathOps`, `math_ops.dfy`). A binary operator first promotes
  its two operand types to a common one, as C's usual arithmetic conversions do. It then
  applies `+ - * / %`, `& | ^ ~ !`, the rotations or the shifts to 32-bit or 64-bit
  two's-complement words. Words are modelled as unbounded integers holding the unsigned bit
  pattern (`Words`, `words.dfy`). Java's wrap-around, its truncating division, its
  sign-extending reads and its masking of shift distances are all written out explicitly.
- **The tree-to-JavaScript compiler** (`CodeConverter`, `code_converter.dfy`).
  - It walks each function's syntax tree without recursion, pops the already-converted
    operand texts from a code stack, and pushes the text of the node.
  - Nodes live in an arena and refer to each other by index (`Ast`, `ast.dfy`).
  - The properties of the emission rules, of the walk and of the function list are in
    `CodeConverterProperties` (`converter_properties.dfy`), together with a worked example:
    `main() { i[a] = i[b] + i[c]; }` compiled end to end, from the header line to the
    closing bracket.
- **The bytecode interpreter** (`EnigmaVM`, `enigma_vm.dfy`).
  - One step decodes an opcode, checks the stack holds the inputs the opcode declares, then
    stores, loads or pushes inline data.
  - The driver steps until the program says it has stopped.
- **Difficulty retargeting** (`Retarget`, `retarget.dfy`).
  - The base target and cumulative difficulty of a new block.
  - The proof-of-work target, with its initialization window and rolling window.

Shared pieces:

- `Results` (`results.dfy`): the `Result`/`Option` types that carry every exception path.
- `Text` (`text.dfy`): Java's `%d` formatting and ASCII case-insensitive comparison.

Exceptions are values. A Java exception becomes a `Fail`/`Raised`/`Threw` value carrying the
error; the interpreter also carries the program as the exception left it. Loops that need
not terminate (the tree walk, `execute`) take a step bound. The lemmas `WalkFuelIrrelevant`
and `ExecuteFuelIrrelevant` show that the bound never changes a run that finishes within it.

## Model

| member | source | states |
|---|---|---|
| EnigmaMathOps.GetCast | src/com/community/EnigmaMathOps.java:6-64 | double dominates, then float; equal types are kept; among distinct integer types unsigned long wins, then long, and int with unsigned int gives unsigned int |
| EnigmaMathOps.GetCastCommutes | src/com/community/EnigmaMathOps.java:6-64 | the promoted type does not depend on the order of the operands |
| EnigmaMathOps.GetCastPicksAnOperand | src/com/community/EnigmaMathOps.java:6-64 | the promoted type is always one of the two operand types |
| EnigmaMathOps.Arith | src/com/community/EnigmaMathOps.java:73-162 | `add`, `sub`, `mul` set the promoted type's field with a word congruent to the exact result modulo 2^32 (int/uint) or 2^64 (long/ulong) |
| EnigmaMathOps.AddIsSignedSum | src/com/community/EnigmaMathOps.java:73-83 | read as signed, the int/uint sum is Java's wrapped `int` sum of the signed operands |
| EnigmaMathOps.SignedDivide | src/com/community/EnigmaMathOps.java:169-173 | Java's `int` division truncates toward zero, except that MIN_VALUE / -1 overflows to MIN_VALUE |
| EnigmaMathOps.SignedRemainder | src/com/community/EnigmaMathOps.java:207-212 | Java's `%` gives a remainder smaller than the divisor in magnitude, with the dividend's sign, differing from the dividend by a multiple of the divisor |
| EnigmaMathOps.Div | src/com/community/EnigmaMathOps.java:164-200 | `div` throws exactly on a zero divisor in the int, uint and ulong arms; int truncates, and dividing by -1 negates with wrap-around (MIN_VALUE / -1 is MIN_VALUE); uint/ulong give the floor quotient of the unsigned words; the long arm gives the product (see Findings) |
| EnigmaMathOps.DivCorrected | src/com/community/EnigmaMathOps.java:179-183 | with the long arm dividing, long gives the truncated signed quotient, negates with wrap-around for divisor -1, and also throws on a zero divisor; every other arm is unchanged |
| EnigmaMathOps.DivLongMultiplies | src/com/community/EnigmaMathOps.java:179-183 | 6 / 3 in the long arm yields 18 as written and 2 when corrected |
| EnigmaMathOps.Mod | src/com/community/EnigmaMathOps.java:202-231 | `mod` throws exactly on a zero divisor; every integer arm, unsigned ones included, gives the signed truncated remainder of the words read as signed |
| EnigmaMathOps.ModCorrected | src/com/community/EnigmaMathOps.java:207-218 | the unsigned arms give the unsigned remainder: below the divisor and differing from the dividend by a multiple of it; other arms are unchanged |
| EnigmaMathOps.ModUnsignedIsSigned | src/com/community/EnigmaMathOps.java:207-212 | 0xFFFFFFFF % 2 on uint yields 0xFFFFFFFF as written and 1 when corrected |
| EnigmaMathOps.BitwiseOp | src/com/community/EnigmaMathOps.java:233-306 | `band`, `bor`, `bxor` throw "Cannot apply &/|/^ to float/double" exactly when the promoted type is floating, and otherwise set the promoted type's field |
| EnigmaMathOps.BitwiseOpCommutes | src/com/community/EnigmaMathOps.java:233-306 | swapping the operands of `band`, `bor` or `bxor` gives the same result |
| EnigmaMathOps.BxorTwiceRestores | src/com/community/EnigmaMathOps.java:283-306 | `bxor` with the same operand twice gives the original word back, on same-typed 32-bit and 64-bit operands |
| EnigmaMathOps.BandBorIdempotent | src/com/community/EnigmaMathOps.java:233-281 | `band` or `bor` of an integer operand with itself gives its own word back |
| EnigmaMathOps.Compl | src/com/community/EnigmaMathOps.java:308-328 | `compl` throws on float/double; otherwise result plus operand is the all-ones word of the operand's width |
| EnigmaMathOps.Not | src/com/community/EnigmaMathOps.java:329-352 | `not` keeps the operand's type and yields 1 exactly for a zero operand and 0 otherwise |
| EnigmaMathOps.Rotl | src/com/community/EnigmaMathOps.java:353-373 | `rotl` throws on float/double; otherwise rotating the result right by the same masked distance restores the operand |
| EnigmaMathOps.Rotr | src/com/community/EnigmaMathOps.java:374-394 | `rotr` as written gives the operand times 2^k modulo the width, a left shift (see Findings) |
| EnigmaMathOps.RotrCorrectedUndoesRotl | src/com/community/EnigmaMathOps.java:353-394 | the corrected `rotr` undoes `rotl` by the same distance, on the 32-bit types and on the 64-bit types |
| EnigmaMathOps.RotrShiftsLeft | src/com/community/EnigmaMathOps.java:374-394 | `rotr(1, 1)` on uint yields 2 as written and 0x80000000 when corrected |
| EnigmaMathOps.Shl | src/com/community/EnigmaMathOps.java:395-415 | `shl` as written is a rotation: no bit is lost, and rotating right by the same distance restores the operand (see Findings) |
| EnigmaMathOps.ShlCorrected | src/com/community/EnigmaMathOps.java:395-415 | the corrected `shl` gives the operand times 2^k modulo the width |
| EnigmaMathOps.ShlRotates | src/com/community/EnigmaMathOps.java:395-415 | 0x80000000 shl 1 yields 1 as written and 0 when corrected |
| EnigmaMathOps.Shr | src/com/community/EnigmaMathOps.java:416-436 | `shr` is a logical shift on every integer type: the result is the floor of the unsigned word divided by 2^k |
| EnigmaMathOps.ShrCorrected | src/com/community/EnigmaMathOps.java:416-436 | the corrected `shr` fills with the sign on int and long (floor of the signed value divided by 2^k) and is unchanged on uint and ulong |
| EnigmaMathOps.ShrIgnoresSign | src/com/community/EnigmaMathOps.java:416-436 | -2 shr 1 on int yields 0x7FFFFFFF as written and -1 when corrected |
| Words.RotateRoundTrip | src/com/community/EnigmaMathOps.java:353-394 | rotating a word right by k undoes rotating it left by k, for every distance below the width |
| Words.TruncDivRem | src/com/community/EnigmaMathOps.java:169-173 | Java's truncating quotient and remainder recompose the dividend, the remainder is smaller than the divisor and has the dividend's sign |
| Text.SameIgnoringCase | src/com/community/CodeConverter.java:39-43 | the character-by-character comparison agrees with ASCII `equalsIgnoreCase`: equal length and equal lower-cased characters |
| Text.IntToStringRoundTrip | src/com/community/CodeConverter.java:192-200 | the `%d` rendering of an integer is a numeral that parses back to the integer |
| Text.IntToStringInjective | src/com/community/CodeConverter.java:192-200 | different integers are rendered differently |
| CodeConverter.Tab | src/com/community/CodeConverter.java:37 | `tab[i]` is i tabs below 8, seven tabs at 8, and an array-bounds failure outside 0..8 |
| CodeConverter.IndentBounded | src/com/community/CodeConverter.java:611-613 | statement indentation `tab[max(tabs,0)]` succeeds exactly for depths up to 8, scope indentation `tab[max(tabs-1,0)]` up to 9 |
| CodeConverter.Strcmp | src/com/community/CodeConverter.java:39-43 | `strcmp` is true exactly when the strings differ ignoring case |
| CodeConverter.StrcmpSymmetric | src/com/community/CodeConverter.java:39-43 | `strcmp` does not depend on argument order |
| CodeConverter.StrcmpReflexiveFalse | src/com/community/CodeConverter.java:39-43 | a string never differs from itself |
| CodeConverter.Pop | src/com/community/CodeConverter.java:84-90 | a pop fails with "Corupted code stack" exactly on an empty stack, and otherwise returns the top and the rest |
| CodeConverter.PopArguments | src/com/community/CodeConverter.java:137-149 | VERIFY_POW needs four fragments and joins them with commas in the order they were pushed |
| CodeConverter.GetNodeInputs | src/com/community/CodeConverter.java:51-159 | unary kinds take the top as left; binary kinds take the top as right and the one below as left; VERIFY_POW takes four; the rest take none; fewer fragments than needed is "Corupted code stack" |
| CodeConverter.ConstCell | src/com/community/CodeConverter.java:211-241 | VAR_CONST picks the typed array; fails with "Invalid variable" exactly for an unknown data type |
| CodeConverter.ExpCell | src/com/community/CodeConverter.java:242-304 | VAR_EXP picks the typed array; fails with "Invalid variable" exactly for an unknown data type |
| CodeConverter.Emit | src/com/community/CodeConverter.java:173-362 | IF, ELSE and REPEAT raise the indentation to at least 1; only CONDITIONAL pops the stack once more |
| CodeConverter.Push | src/com/community/CodeConverter.java:611-626 | the emitted text is pushed with the indentation and capacities of the emission |
| CodeConverter.EmitAndPush | src/com/community/CodeConverter.java:173-626 | the conversion after the pops keeps the capacities and changes the indentation only for the scope kinds |
| CodeConverter.ConvertNode | src/com/community/CodeConverter.java:161-627 | a null node is rejected with "Unable to convert NULL node."; conversion keeps the capacities and raises the indentation to at least 1 only for IF, ELSE and REPEAT |
| CodeConverter.Indented | src/com/community/CodeConverter.java:645-651 | descending onto IF or REPEAT indents by one, nothing else changes |
| CodeConverter.Ascend | src/com/community/CodeConverter.java:685-707 | climbing onto a parent keeps the capacities and non-negative indentation, and continues upward |
| CodeConverter.Descend | src/com/community/CodeConverter.java:643-664 | descending keeps the capacities, non-negative indentation and a valid node |
| CodeConverter.Climb | src/com/community/CodeConverter.java:668-708 | climbing stops below the root, crosses to a right sibling or ascends, keeping the walk invariant |
| CodeConverter.WalkStep | src/com/community/CodeConverter.java:639-710 | one iteration of the walk keeps the capacities, non-negative indentation and a valid node |
| CodeConverter.Walk | src/com/community/CodeConverter.java:639-710 | a finished walk keeps the capacities and leaves non-negative indentation when it started non-negative |
| CodeConverter.Resume | src/com/community/CodeConverter.java:639-710 | the walk after one iteration keeps the same invariant |
| CodeConverter.ConvertFunction | src/com/community/CodeConverter.java:629-714 | a null root is rejected with "Unable to convert NULL object."; otherwise the indentation rises by one before the walk, and a success keeps the capacities |
| CodeConverter.ConvertVerify | src/com/community/CodeConverter.java:45-49 | functions from the start index on are converted in order; a start past the end does nothing; a negative start fails on the first lookup |
| CodeConverterProperties.ConvertNodeStackEffect | src/com/community/CodeConverter.java:161-627 | converting a node consumes exactly its operands (one more for CONDITIONAL) and pushes exactly one fragment, none for COND_ELSE |
| CodeConverterProperties.BinaryEmission | src/com/community/CodeConverter.java:364-406 | a plain binary operator replaces its two operands with `(l) op (r)` |
| CodeConverterProperties.AddEmission | src/com/community/CodeConverter.java:364-406 | ADD replaces its operands with `(l) + (r)` |
| CodeConverterProperties.DivisionEmission | src/com/community/CodeConverter.java:408-420 | DIV and MOD are emitted behind a zero test of the divisor |
| CodeConverterProperties.DivisionAssignEmission | src/com/community/CodeConverter.java:450-463 | `/=` and `%=` assign the zero-guarded quotient |
| CodeConverterProperties.ConditionalEmission | src/com/community/CodeConverter.java:349-359 | CONDITIONAL pops its condition below the two branches and pushes `((c) ? (l) : (r))` |
| CodeConverterProperties.CondElseLeavesStack | src/com/community/CodeConverter.java:361-362 | COND_ELSE pushes nothing and changes nothing |
| CodeConverterProperties.UnknownKindRejected | src/com/community/CodeConverter.java:603-605 | a kind the switch does not handle is "Unknown expression" |
| CodeConverterProperties.UnderflowRejected | src/com/community/CodeConverter.java:84-149 | a node with fewer fragments on the stack than it takes is "Corupted code stack" |
| CodeConverterProperties.VerifyPowEmission | src/com/community/CodeConverter.java:188-191 | VERIFY_POW replaces its four arguments with the two-branch `check_pow` call on them |
| CodeConverterProperties.CallEmission | src/com/community/CodeConverter.java:179-184 | a call to `verify` (any case) passes `verify_pow, target`; any other call passes nothing |
| CodeConverterProperties.VarConstClamps | src/com/community/CodeConverter.java:211-241 | a VAR_CONST index below capacity is kept and any other is replaced by 0; every unsigned array uses the uint count |
| CodeConverterProperties.VarConstInvalidType | src/com/community/CodeConverter.java:237-239 | a VAR_CONST of unknown type is "Invalid variable" |
| CodeConverterProperties.VarExpEmission | src/com/community/CodeConverter.java:242-304 | a VAR_EXP that is the target of a statement emits a guarded `if`; any other clamps the index in place |
| CodeConverterProperties.StorageTargetUnclamped | src/com/community/CodeConverter.java:264-266 | only the `s[]` target form indexes `tab[state.tabs]` unclamped, so only it fails at negative depth |
| CodeConverterProperties.StatementTerminated | src/com/community/CodeConverter.java:611-615 | a node that ends a statement is pushed indented and followed by `;` and a newline |
| CodeConverterProperties.PushText | src/com/community/CodeConverter.java:611-626 | the pushed fragment is the statement form or the bare text, on top of the remaining stack |
| CodeConverterProperties.ConvertVerifyAppend | src/com/community/CodeConverter.java:45-49 | converting one more function is converting the list and then that function |
| CodeConverterProperties.ConvertVerifyDone | src/com/community/CodeConverter.java:45-49 | past the last function the loop does nothing |
| CodeConverterProperties.StepLeft | src/com/community/CodeConverter.java:645-651 | descending moves to the left child |
| CodeConverterProperties.StepAcross | src/com/community/CodeConverter.java:673-684 | climbing from a left child with a right sibling moves down into the sibling |
| CodeConverterProperties.StepUp | src/com/community/CodeConverter.java:685-707 | climbing from a child that has no unvisited sibling converts the parent |
| CodeConverterProperties.StepDone | src/com/community/CodeConverter.java:669-670 | climbing from a child of the root ends the walk |
| CodeConverterProperties.FunctionHeader | src/com/community/CodeConverter.java:176-177 | a FUNCTION node converts to `function name() {` and a newline, never terminated as a statement |
| CodeConverterProperties.FunctionBlockCloses | src/com/community/CodeConverter.java:326-329 | the BLOCK under a FUNCTION converts to an unindented closing bracket |
| CodeConverterProperties.StepHeader | src/com/community/CodeConverter.java:653-657 | descending onto a function with no left child pushes its header and moves to its body |
| CodeConverterProperties.StepCloseBody | src/com/community/CodeConverter.java:701-703 | climbing onto a function's body BLOCK pushes the closing bracket |
| CodeConverterProperties.WalkFuelIrrelevant | src/com/community/CodeConverter.java:639-710 | a walk that finishes within a bound finishes identically within any larger one |
| CodeConverterProperties.SumConverts | src/com/community/CodeConverter.java:629-714 | the function `main() { i[a] = i[b] + i[c]; }`, a FUNCTION whose body BLOCK holds the assignment, compiles to its header, the tab-indented assignment and the closing bracket |
| EnigmaVM.Step | src/com/community/EnigmaVM.java:35-168 | a stopped program is untouched; an unknown opcode raises "Unknown OP-Code" with the program unchanged |
| EnigmaVM.UnderflowHasNoEffect | src/com/community/EnigmaVM.java:50-54 | too few stack elements for the declared inputs raises the underflow error with the program unchanged |
| EnigmaVM.KeyOf | src/com/community/EnigmaVM.java:66-67 | a memory key is a signed 32-bit value |
| EnigmaVM.KeyIgnoresHighBytes | src/com/community/EnigmaVM.java:66-67 | only the last four bytes of a key element matter |
| EnigmaVM.StoredValue | src/com/community/EnigmaVM.java:64-105 | INT and UINT stores keep the last four bytes of the value; the other targets keep all of it |
| EnigmaVM.ExecStore | src/com/community/EnigmaVM.java:64-105 | a store succeeds exactly when two elements are there to pop |
| EnigmaVM.ExecLoad | src/com/community/EnigmaVM.java:106-147 | a load succeeds exactly when a key is there and leaves the stack as deep as before |
| EnigmaVM.ExecPush | src/com/community/EnigmaVM.java:152-166 | a successful PUSHDATA had a length byte n in [1, 64], leaves the pointer just after the n data bytes, pushes exactly one element (those bytes, packed, untyped) and changes nothing else |
| EnigmaVM.StoreEffect | src/com/community/EnigmaVM.java:64-105 | a store pops value then key, writes the value at the truncated key of its target, steps forward, and changes nothing else |
| EnigmaVM.LoadEffect | src/com/community/EnigmaVM.java:106-147 | a load pops the key, pushes the stored bytes tagged with its target, steps forward, and changes nothing else |
| EnigmaVM.StoreThenLoad | src/com/community/EnigmaVM.java:64-147 | a store followed by a load from the same target and key pushes the stored value |
| EnigmaVM.PushLengthChecked | src/com/community/EnigmaVM.java:152-162 | a signed length byte above 64 or below 1 raises with the pointer on the length byte |
| EnigmaVM.PushEffect | src/com/community/EnigmaVM.java:152-166 | an in-range PUSHDATA pushes exactly the following bytes, as `nullToEmptyPacked` packs them, of unknown type, and skips them |
| EnigmaVM.UnhandledStalls | src/com/community/EnigmaVM.java:60-167 | an opcode without a case leaves the program exactly as it was |
| EnigmaVM.WellDeclaredNeverEmpty | src/com/community/EnigmaVM.java:50-147 | when each opcode declares at least what it pops, no step pops an empty stack, and the stack depth changes by pushes minus pops |
| EnigmaVM.BytesToIntRoundTrip | src/com/community/EnigmaVM.java:67 | reading four big-endian bytes back gives the signed 32-bit value they encode |
| EnigmaVM.Execute | src/com/community/EnigmaVM.java:170-187 | `execute` returns an empty array, a halted run ends on a stopped program, and a stopped program is not stepped |
| EnigmaVM.ExecuteUnfold | src/com/community/EnigmaVM.java:172-174 | a running program takes one step and goes on, or ends with the step's exception |
| EnigmaVM.ThrewFromAStep | src/com/community/EnigmaVM.java:171-185 | a run that ends with an exception ends where some step raised it |
| EnigmaVM.ExecuteIdempotent | src/com/community/EnigmaVM.java:172-174 | executing a halted program again changes nothing |
| EnigmaVM.ExecuteFuelIrrelevant | src/com/community/EnigmaVM.java:172-174 | a run that stops or throws within a bound is the same under any larger bound |
| EnigmaVM.UnhandledNeverEnds | src/com/community/EnigmaVM.java:172-174 | a program at an opcode without a case never halts: every bound runs out |
| Retarget.EarlyBaseTarget | src/nxt/BlockImpl.java:541-560 | below height 2 the target is at most twice the previous one and at least 1 from a positive previous target |
| Retarget.EarlyWindowFactorTwo | src/nxt/BlockImpl.java:541-560 | below height 2 the target stays between half and twice the previous one |
| Retarget.EarlyWindowBounds | src/nxt/BlockImpl.java:541-560 | below height 2 the block's new target respects the same bounds |
| Retarget.EvenBaseTarget | src/nxt/BlockImpl.java:561-575 | at even heights the target lies in [MIN_BASE_TARGET, MAX_BASE_TARGET_2] |
| Retarget.EvenHeightBounds | src/nxt/BlockImpl.java:561-575 | at even heights the block's new target lies in [MIN_BASE_TARGET, MAX_BASE_TARGET_2] |
| Retarget.OddHeightKeepsTarget | src/nxt/BlockImpl.java:576-579 | at odd heights the target is carried over |
| Retarget.NextBaseTarget | src/nxt/BlockImpl.java:540-578 | below height 2 the early rule on the last block time; odd heights keep the target; even heights average the block time since the block two back, over three blocks in Java `int` arithmetic, and fail exactly when that block is missing |
| Retarget.CalculateBaseTarget | src/nxt/BlockImpl.java:539-580 | only the base target and cumulative difficulty change; the difficulty grows by 2^64 divided by the target; a zero target is a division by zero |
| Retarget.DifficultyGrows | src/nxt/BlockImpl.java:579 | a positive base target strictly increases the cumulative difficulty |
| Retarget.ClampTimespan | src/nxt/BlockImpl.java:621-624 | the timespan is raised to a third of the target, then lowered to three times it |
| Retarget.ClampTimespanIdempotent | src/nxt/BlockImpl.java:621-624 | clamping twice is clamping once |
| Retarget.GuardPowTarget | src/nxt/BlockImpl.java:629-635 | the guarded target lies in [1, Long.MAX_VALUE / 100] and equals the scaled one when that neither overflowed nor left the range |
| Retarget.InitWindow | src/nxt/BlockImpl.java:589-604 | in the initialization window the target is the ceiling and the masses start or accumulate |
| Retarget.InitWindowApplies | src/nxt/BlockImpl.java:589-604 | heights in the initialization window take exactly that update |
| Retarget.TargetTimespan | src/nxt/BlockImpl.java:617-619 | with no submissions the wanted timespan is the measured one; otherwise it is the POW mass times the truncated `60 / WE_WANT_X_POW_PER_MINUTE`, in Java `int` arithmetic, failing exactly when that divisor is zero |
| Retarget.ScaledPowTarget | src/nxt/BlockImpl.java:621-636 | the scaled target lies in [1, Long.MAX_VALUE / 100] and fails only on a zero wanted timespan |
| Retarget.RollingWindow | src/nxt/BlockImpl.java:605-639 | masses add this block's and subtract those of the block POW_RETARGET_DEPTH back; a missing block there is an error |
| Retarget.RollingWindowApplies | src/nxt/BlockImpl.java:605-639 | heights past the initialization window take the rolling-window update |
| Retarget.CalculatePowTarget | src/nxt/BlockImpl.java:582-646 | below START_ENCODING_BLOCK nothing changes; otherwise only the five proof-of-work fields change and the target lies in [1, Long.MAX_VALUE / 100] |
| Retarget.StubCountKeepsMassesZero | src/nxt/BlockImpl.java:648-650 | with `countPow` returning 0, the masses stay zero from the first encoding block on |

## Left out

- Floating point: the float and double arms of the operators are modelled only by the type
  they produce. The `%f` text of a float constant is a given field of the node.
- Types the operators rely on are not part of this model: the stack element class
  (its `getInt`/`getLong`/`convertType`), `EnigmaProgram`, `EnigmaOpCode`, `Convert`,
  `Primitives`, `BlockDb` and the constants classes. `enigma_vm.dfy`, `ast.dfy` and
  `retarget.dfy` state in their header comments what stands in for each.
- The opcode table and the program's stopped test are parameters of the interpreter
  (`Machine`), because they are defined in `EnigmaOpCode` and `EnigmaProgram`.
- `Convert.nullToEmptyPacked(b, 8)`, which PUSHDATA applies to the swept bytes, is a
  parameter too (`Machine.pack`), because `Convert` is not part of this model.
- Reading past the end of the code is modelled as the error `EndOfCode`. The
  source's behaviour there depends on `EnigmaProgram`.
- `VM_M_ARRAY_SIZE` and the work package's array sizes are parameters (`Capacities`).
- Logging, the interpreter's debug dumps and the stack trace printed by `execute` are
  left out. `execute` swallows the exception; the model reports it in `Run.end`.
- `Block.getHeight` throwing for an unset height is left out: heights are plain integers.
- The rest of `BlockImpl` (signatures, transactions, JSON) is left out. So are the test
  harness `TestVm.java` and the web client `send.ts`, which are not the core.
- Case-insensitive comparison lowers only ASCII letters; Java's full Unicode case
  folding is left out.
- CodeConverter.Walk: runs at most `fuel` iterations and fails with `OutOfFuel` beyond
  them. The Java loop has no such bound; `WalkFuelIrrelevant` shows the bound never
  changes a walk that finishes.
- EnigmaVM.Execute: runs at most `fuel` steps and ends with `OutOfSteps` beyond them. The
  Java loop has no such bound; `ExecuteFuelIrrelevant` shows the bound never changes a run
  that ends.
- CodeConverter.ConvertFunction: its contract covers the capacities and the indentation only.
  The emitted text is pinned down per node kind by the emission lemmas and for a whole
  function by `SumConverts`, not for every tree.

## Findings

| source | as written | input that shows it | evidently intended | confidence | as-written member | corrected member |
|---|---|---|---|---|---|---|
| src/com/community/EnigmaMathOps.java:179-183 | the long arm of `div` computes `x2a*y2a` | 6 / 3 as longs yields 18 | the truncated signed quotient, 2 | high; not executed | EnigmaMathOps.Div, EnigmaMathOps.DivLongMultiplies | EnigmaMathOps.DivCorrected |
| src/com/community/EnigmaMathOps.java:207-218 | `mod` uses Java's signed `%` for uint and ulong, while `div` uses `divideUnsigned` for them | 0xFFFFFFFF % 2 as uint yields 0xFFFFFFFF | the unsigned remainder, 1 (`Integer.remainderUnsigned`) | high; not executed | EnigmaMathOps.Mod, EnigmaMathOps.ModUnsignedIsSigned | EnigmaMathOps.ModCorrected |
| src/com/community/EnigmaMathOps.java:374-394 | `rotr` computes `x << k`, a left shift | rotr(1, 1) as uint yields 2 | rotation right, 0x80000000, undoing `rotl` | high; not executed | EnigmaMathOps.Rotr, EnigmaMathOps.RotrShiftsLeft | EnigmaMathOps.RotrCorrected, proved by EnigmaMathOps.RotrCorrectedUndoesRotl |
| src/com/community/EnigmaMathOps.java:395-415 | `shl` calls `rotateLeft`, so the top bits wrap round | 0x80000000 shl 1 as uint yields 1 | a shift left that drops the top bits, 0 | high; not executed | EnigmaMathOps.Shl, EnigmaMathOps.ShlRotates | EnigmaMathOps.ShlCorrected |
| src/com/community/EnigmaMathOps.java:416-436 | `shr` uses `>>>` on int and long too | -2 shr 1 as int yields 0x7FFFFFFF | a sign-filling shift on signed types, -1, as the compiled JavaScript `>>` gives | medium; not executed | EnigmaMathOps.Shr, EnigmaMathOps.ShrIgnoresSign | EnigmaMathOps.ShrCorrected |
