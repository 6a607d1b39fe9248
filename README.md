# Lucid expression evaluator, in Dafny

This project models `ExprParser`, the compile-time expression evaluator of the
Lucid hardware description language in Alchitry Labs. A tree walker calls one
`exit*` handler per expression node, children before parents. Each handler
reads its children's entries from two tables: `values`, the node's four-state
value, and `constant`, whether the node is a compile-time constant. It then
either writes the node's entries or reports diagnostics.

A value is a simple bit vector, an array of values, an undefined value of
known or unknown shape, or a struct. A simple value is a sequence of
`0`, `1`, `x` and `z` bits, least significant first, with a signedness flag.

Layout, one module per file:

- `bits.dfy` (`Bits`): four-state bits and vectors, their integer readings
  (`toBigInt`), fitting an integer to a width (`MutableBitList(value, width,
  signed)`), resizing, minimum widths, shifts, and `Int`/`Long` wrap-around.
- `values.dfy` (`Values`): shapes (`signalWidth`), values, and reference
  definitions of the value-package operations the evaluator calls (`not`,
  `invert`, reductions, `and`/`or`/`xor`, orderings, `isEqualTo`, `reverse`,
  `flatten`, `resize`, `toValue`).
- `checks.dfy` (`Checks`): operands, diagnostics, and the four shape screens.
- `rules.dfy` (`Operators`): for each handler, what it does once its children
  have been looked up, as a function returning an `Outcome` (value written,
  diagnostics, uncaught exception).
- `builtins.dfy` (`Builtins`): the function table, the argument screens, and
  the nine builtins.
- `parser.dfy` (`Parser`): the evaluator class `ExprParser` with its three
  tables and one method per handler, and the handlers' loops as methods proved
  against the functions of `Operators`.
- `properties.dfy` (`Properties`): what the rules promise over all inputs.
- `scenarios.dfy` (`Scenarios`): worked evaluations, including three handler
  calls on a fresh evaluator.
- `findings.dfy` (`Findings`): two builtins as their code computes them, beside
  the corrected definitions that the rest of the model uses.

Each handler method states the new `constant` table and ties the new `values`
and `reports` to its rule through `Took`. If a child has no value, nothing is
written and nothing is reported. The `constant` entry is written before the
lookup, as in the code, so the two tables can disagree.

An uncaught exception (a failed `check`, a failed cast, reading a vector with
`x`/`z` bits as an integer) is the `thrown` flag of an `Outcome`. A value
written before the exception stays written. This matters in the shift
handler: an undefined value shifted by a simple amount writes an undefined
result at lines 491-499 and then fails the simple-value `check` at line 501.
The model keeps that defect (`ShiftRule`, `Properties.ShiftUndefinedValueFails`).

Where the comments and the code disagree, the model follows the code:

- The comment at `ExprParser.kt:232` says replication always gives an unsigned
  value. The code builds the bit list with the repeated value's own
  signedness (line 294), so `Properties.DupSimple` states that the flag is kept.
- The ternary handler reports an error it calls a bug (lines 816-823). It is
  reachable: a true selector choosing an undefined two-bit branch beside a
  four-bit simple branch (`Properties.TernaryWidthBugReachable`).

## Model

All source paths are relative to the repository root.

| member | source | states |
|---|---|---|
| Bits.ToInt | src/com/alchitry/labs/parsers/lucidv2/ExprParser.kt:412 | `toBigInt` of a vector without X/Z bits fits its width in two's complement (signed) or plain binary |
| Bits.FromInt | src/com/alchitry/labs/parsers/lucidv2/ExprParser.kt:412-413 | `MutableBitList(value, width, signed)` has the given width and flag, no X/Z bits, and reads as the value modulo `2^width` |
| Bits.FromIntToInt | src/com/alchitry/labs/parsers/lucidv2/ExprParser.kt:412-413 | a value that fits the width reads back exactly after fitting |
| Bits.ToIntFromInt | src/com/alchitry/labs/parsers/lucidv2/ExprParser.kt:412-413 | fitting a vector's own reading to its own width gives the vector back |
| Bits.AllX | src/com/alchitry/labs/parsers/lucidv2/ExprParser.kt:411 | the all-X vector has the given width and flag, and every bit is X |
| Bits.Extend | src/com/alchitry/labs/parsers/lucidv2/ExprParser.kt:1091 | `resize` keeps the low bits and fills new high bits with the sign bit (signed) or zero |
| Bits.ExtendIsReencoding | src/com/alchitry/labs/parsers/lucidv2/ExprParser.kt:1091 | resizing a number is fitting its reading to the new width |
| Bits.TruncationReading | src/com/alchitry/labs/parsers/lucidv2/ExprParser.kt:1091 | truncation reads as the value modulo `2^n` |
| Bits.ExtensionReading | src/com/alchitry/labs/parsers/lucidv2/ExprParser.kt:1091 | widening reads as the value modulo `2^n` |
| Bits.MinBitsFits | src/com/alchitry/labs/parsers/lucidv2/ExprParser.kt:1084 | `minBits` is the least width the value fits, with its own signedness |
| Bits.ShiftRightLogical | src/com/alchitry/labs/parsers/lucidv2/ExprParser.kt:511 | `ushr` keeps the width and gives an unsigned vector |
| Bits.ShiftRightArith | src/com/alchitry/labs/parsers/lucidv2/ExprParser.kt:512 | `shr` keeps the width and the flag, and fills the vacated high bits with the sign bit of a signed vector (zero otherwise) |
| Bits.ShiftRightArithDivides | src/com/alchitry/labs/parsers/lucidv2/ExprParser.kt:512 | `shr` of a number reads as its reading divided by `2^n`, rounded toward negative infinity |
| Bits.ShiftLeftLogical | src/com/alchitry/labs/parsers/lucidv2/ExprParser.kt:513 | `ushl` widens by the amount and gives an unsigned vector |
| Bits.ShiftLeftArith | src/com/alchitry/labs/parsers/lucidv2/ExprParser.kt:514 | `shl` widens by the amount and keeps the flag |
| Bits.ShiftLeftMultiplies | src/com/alchitry/labs/parsers/lucidv2/ExprParser.kt:513 | a logical left shift multiplies the unsigned reading by `2^n` |
| Bits.ShiftRightDivides | src/com/alchitry/labs/parsers/lucidv2/ExprParser.kt:511 | a logical right shift divides the unsigned reading by `2^n` |
| Bits.Int32 | src/com/alchitry/labs/parsers/lucidv2/ExprParser.kt:273 | `toInt()` gives a value in `Int` range that agrees modulo `2^32` and keeps values already in range |
| Bits.Int64 | src/com/alchitry/labs/parsers/lucidv2/ExprParser.kt:977 | `Long` arithmetic gives a value in `Long` range that agrees modulo `2^64` |
| Bits.Int32Add | src/com/alchitry/labs/parsers/lucidv2/ExprParser.kt:196-209 | wrapping `bitCount` after every addition is wrapping the total once |
| Bits.Int64Mul | src/com/alchitry/labs/parsers/lucidv2/ExprParser.kt:977 | wrapping the fold's product at every step is wrapping the product once |
| Values.FlatShapes | src/com/alchitry/labs/parsers/lucidv2/ExprParser.kt:610-620 | only simple values and undefined values of flat shape are flat arrays |
| Values.AndFoldKnown | src/com/alchitry/labs/parsers/lucidv2/ExprParser.kt:589 | `andReduce` of known bits is 1 exactly when every bit is 1 |
| Values.OrFoldOne | src/com/alchitry/labs/parsers/lucidv2/ExprParser.kt:590 | `orReduce` (and `isTrue`) is 1 exactly when some bit is 1 |
| Values.XorFoldParity | src/com/alchitry/labs/parsers/lucidv2/ExprParser.kt:591 | `xorReduce` of known bits is the parity of the ones |
| Values.Invert | src/com/alchitry/labs/parsers/lucidv2/ExprParser.kt:367-368 | `~` keeps the shape and the signedness |
| Values.ToValue | src/com/alchitry/labs/parsers/lucidv2/ExprParser.kt:892 | `toValue` reads back as the integer, and is signed exactly when it is negative |
| Checks.Errors | src/com/alchitry/labs/parsers/lucidv2/ExprParser.kt:616 | one error per reported node, in order |
| Checks.ScreenReports | src/com/alchitry/labs/parsers/lucidv2/ExprParser.kt:610-637 | a screen reports exactly the failing operands, and passes exactly when all pass |
| Checks.CheckFlatPasses | src/com/alchitry/labs/parsers/lucidv2/ExprParser.kt:610-620 | `checkFlat` passes iff every operand is flat, and reports exactly the non-flat ones |
| Checks.CheckSimplePasses | src/com/alchitry/labs/parsers/lucidv2/ExprParser.kt:627-637 | `checkSimpleValue` passes iff every operand is simple |
| Checks.FlatDefinedIsSimple | src/com/alchitry/labs/parsers/lucidv2/ExprParser.kt:696-703 | after `checkFlat` passes and no operand is undefined, `checkSimpleValue` passes |
| Checks.FlatOrMatchingPair | src/com/alchitry/labs/parsers/lucidv2/ExprParser.kt:642-656 | two operands pass `checkFlatOrMatchingDims` iff both are flat or their shapes are equal |
| Checks.UndefinedMatchingPasses | src/com/alchitry/labs/parsers/lucidv2/ExprParser.kt:661-678 | `checkUndefinedMatchingDims` fails iff some width is unknown and some operand is not flat |
| Checks.FlatPair | src/com/alchitry/labs/parsers/lucidv2/ExprParser.kt:610-620 | two operands pass `checkFlat` iff both are flat; a flat value is simple or undefined |
| Checks.SimplePair | src/com/alchitry/labs/parsers/lucidv2/ExprParser.kt:627-637 | two operands pass `checkSimpleValue` iff both are simple |
| Operators.Repeat | src/com/alchitry/labs/parsers/lucidv2/ExprParser.kt:289-297 | repeating `t` times makes `|xs|·t` items, and none for a count that is not positive |
| Operators.ValuesOf | src/com/alchitry/labs/parsers/lucidv2/ExprParser.kt:330-331 | helper: the operands' values in order; the array literal's behaviour is stated by `Properties.ArrayBuilds` |
| Builtins.Find | src/com/alchitry/labs/parsers/lucidv2/ExprParser.kt:837 | `firstOrNull` finds an entry iff one has the name, and the first such one |
| Builtins.Clog2Bounds | src/com/alchitry/labs/parsers/lucidv2/ExprParser.kt:888-892 | CLOG2 is the least `k` with `2^k >= n` |
| Builtins.CeilDivBounds | src/com/alchitry/labs/parsers/lucidv2/ExprParser.kt:1048-1054 | CDIV is the exact ceiling of `a / b`, for either sign of `b` |
| Builtins.Reversed | src/com/alchitry/labs/parsers/lucidv2/ExprParser.kt:1004 | helper: `asReversed` puts element `i` at `|xs| - 1 - i`; REVERSE's property is `Properties.ReverseInvolutive` |
| Builtins.PowerOfTwo | src/com/alchitry/labs/parsers/lucidv2/ExprParser.kt:914 | the power of 2 is the bit-width power `2^e` |
| Builtins.PowerAdd | src/com/alchitry/labs/parsers/lucidv2/ExprParser.kt:914 | `b^(m+n) = b^m · b^n` |
| Builtins.BuildShape | src/com/alchitry/labs/parsers/lucidv2/ExprParser.kt:984-1005 | `buildRecursive` succeeds iff the width is a multiple of the dimensions' product, and nests the slices with the last dimension outermost |
| Builtins.BuildNested | src/com/alchitry/labs/parsers/lucidv2/ExprParser.kt:994-1003 | the same for the recursive case |
| Builtins.FirstFailing | src/com/alchitry/labs/parsers/lucidv2/ExprParser.kt:940-948 | the index of the first argument that fails a screen |
| Builtins.DimsRule | src/com/alchitry/labs/parsers/lucidv2/ExprParser.kt:940-976 | BUILD's dimensions, when read, are one per argument and all positive |
| Builtins.ResizeWarnsExactly | src/com/alchitry/labs/parsers/lucidv2/ExprParser.kt:1084-1091 | the corrected warning fires exactly when resizing changes the number |
| Findings.CdivRoundingLosesFraction | src/com/alchitry/labs/parsers/lucidv2/ExprParser.kt:1048-1054 | the decimal CDIV gives 1 for 100000000001 / 100000000000, whose ceiling is 2 |
| Findings.ResizeWarningInverted | src/com/alchitry/labs/parsers/lucidv2/ExprParser.kt:1084 | the warning as written is silent on a truncation that loses a bit and fires on a lossless widening |
| Parser.Lookup | src/com/alchitry/labs/parsers/lucidv2/ExprParser.kt:159-163 | the children's operands exist iff every child has a value, in child order |
| Parser.Failing | src/com/alchitry/labs/parsers/lucidv2/ExprParser.kt:182-188 | the reporting loop reports exactly what the screen reports |
| Parser.SizeScan | src/com/alchitry/labs/parsers/lucidv2/ExprParser.kt:196-209 | `bitCount` is the wrapped sum of the widths; `definedWidth` holds iff every width is known |
| Parser.JoinBits | src/com/alchitry/labs/parsers/lucidv2/ExprParser.kt:222-223 | the reversed append loop gives the joined bits |
| Parser.JoinElements | src/com/alchitry/labs/parsers/lucidv2/ExprParser.kt:191-192 | the reversed append loop gives the joined elements |
| Parser.RepeatSeq | src/com/alchitry/labs/parsers/lucidv2/ExprParser.kt:288-297 | the `repeat` loop gives the repetition |
| Parser.Characters | src/com/alchitry/labs/parsers/lucidv2/ExprParser.kt:77-89 | one element per character, in order, each the character's encoding; the handler encodes with `Char`, the code in eight unsigned bits |
| Parser.FirstFailingIs | src/com/alchitry/labs/parsers/lucidv2/ExprParser.kt:940-948 | a loop that stops at the first failure stops at `FirstFailing` |
| Parser.ReadDims | src/com/alchitry/labs/parsers/lucidv2/ExprParser.kt:940-976 | BUILD's three passes over the dimensions give `DimsRule` |
| Parser.FoldFactor | src/com/alchitry/labs/parsers/lucidv2/ExprParser.kt:977 | the `Long` fold is the wrapped product of the dimensions |
| Parser.LiteralOutcome | src/com/alchitry/labs/parsers/lucidv2/ExprParser.kt:55-113 | the literal handler's loop computes `LiteralRule` |
| Parser.ConcatOutcome | src/com/alchitry/labs/parsers/lucidv2/ExprParser.kt:168-229 | the concatenation handler's loops compute `ConcatRule` |
| Parser.DupOutcome | src/com/alchitry/labs/parsers/lucidv2/ExprParser.kt:242-299 | the replication handler's loops compute `DupRule` |
| Parser.BuildOutcome | src/com/alchitry/labs/parsers/lucidv2/ExprParser.kt:935-1007 | BUILD's loops compute `BuildRule` |
| Parser.CallOutcome | src/com/alchitry/labs/parsers/lucidv2/ExprParser.kt:846-1097 | the function handler after its lookups computes `CallRule` |
| Parser.ExprParser.constructor | src/com/alchitry/labs/parsers/lucidv2/ExprParser.kt:20-22 | a fresh evaluator has empty tables |
| Parser.ExprParser.Gather | src/com/alchitry/labs/parsers/lucidv2/ExprParser.kt:159-163 | the lookup loop gives `Lookup`, stopping at the first child without a value |
| Parser.ExprParser.Apply | src/com/alchitry/labs/parsers/lucidv2/ExprParser.kt:21-22 | an outcome's write goes into `values`, its diagnostics are appended, `constant` is unchanged |
| Parser.ExprParser.ExitNumber | src/com/alchitry/labs/parsers/lucidv2/ExprParser.kt:32-114 | a literal is constant; value and diagnostics as `LiteralRule` |
| Parser.ExprParser.ExitForward | src/com/alchitry/labs/parsers/lucidv2/ExprParser.kt:124-149 | the wrapper nodes copy whichever of the child's entries exist |
| Parser.ExprParser.ExitConcat | src/com/alchitry/labs/parsers/lucidv2/ExprParser.kt:152-230 | constant iff every operand is; nothing else changes when a child has no value; otherwise `ConcatRule` |
| Parser.ExprParser.ExitDup | src/com/alchitry/labs/parsers/lucidv2/ExprParser.kt:233-301 | constancy is the repeated value's alone; otherwise `DupRule` with the count's constancy |
| Parser.ExprParser.ExitArray | src/com/alchitry/labs/parsers/lucidv2/ExprParser.kt:303-333 | constant iff every element is; shape mismatches with the first element are errors; otherwise the array of the values |
| Parser.ExprParser.ExitNegate | src/com/alchitry/labs/parsers/lucidv2/ExprParser.kt:335-359 | constancy of the operand; `NegateRule` |
| Parser.ExprParser.ExitInvert | src/com/alchitry/labs/parsers/lucidv2/ExprParser.kt:361-371 | constancy of the operand; `!` or `~` with no check |
| Parser.ExprParser.ExitReduction | src/com/alchitry/labs/parsers/lucidv2/ExprParser.kt:576-603 | constancy of the operand; `ReductionRule` |
| Parser.ExprParser.ExitAddSub | src/com/alchitry/labs/parsers/lucidv2/ExprParser.kt:373-415 | constant iff both operands are, written before the lookup; `AddSubRule` |
| Parser.ExprParser.ExitMultDiv | src/com/alchitry/labs/parsers/lucidv2/ExprParser.kt:417-465 | constant iff both operands are; `MultDivRule` with the library's product width |
| Parser.ExprParser.ExitShift | src/com/alchitry/labs/parsers/lucidv2/ExprParser.kt:467-521 | constant iff both operands are; `ShiftRule`, including the write-then-throw defect |
| Parser.ExprParser.ExitBitwise | src/com/alchitry/labs/parsers/lucidv2/ExprParser.kt:523-574 | constant iff both operands are; `BitwiseRule` |
| Parser.ExprParser.ExitCompare | src/com/alchitry/labs/parsers/lucidv2/ExprParser.kt:680-739 | constant iff both operands are; `CompareRule` |
| Parser.ExprParser.ExitLogical | src/com/alchitry/labs/parsers/lucidv2/ExprParser.kt:741-776 | constant iff both operands are; `LogicalRule` |
| Parser.ExprParser.ExitTernary | src/com/alchitry/labs/parsers/lucidv2/ExprParser.kt:778-830 | constant iff all three operands are; `TernaryRule` |
| Parser.ExprParser.ExitFunction | src/com/alchitry/labs/parsers/lucidv2/ExprParser.kt:832-1099 | constant iff every argument is; an unknown name is reported even when arguments are missing; otherwise `CallRule` |
| Properties.JoinedOffsets | src/com/alchitry/labs/parsers/lucidv2/ExprParser.kt:196-224 | the joined width is the sum of the widths, and each operand's offset (the widths of the operands after it) leaves room for its bits |
| Properties.JoinedBitAt | src/com/alchitry/labs/parsers/lucidv2/ExprParser.kt:222-224 | bit `k` of operand `i` is bit `offset + k` of the result: each operand sits above all operands after it |
| Properties.ConcatSimple | src/com/alchitry/labs/parsers/lucidv2/ExprParser.kt:195-224 | simple operands concatenate to their joined bits, unsigned, with no diagnostic |
| Properties.ConcatPairReading | src/com/alchitry/labs/parsers/lucidv2/ExprParser.kt:222-224 | `{a, b}` reads as `a · 2^|b| + b` |
| Properties.ConcatUndefined | src/com/alchitry/labs/parsers/lucidv2/ExprParser.kt:213-220 | an undefined operand makes the result undefined and unsigned, with the summed width when every width is known, else unknown |
| Properties.ConcatMismatch | src/com/alchitry/labs/parsers/lucidv2/ExprParser.kt:199-211 | every non-flat operand, and only those, gets a mismatch error, and nothing is written |
| Properties.ArrayBuilds | src/com/alchitry/labs/parsers/lucidv2/ExprParser.kt:303-333 | an array literal writes the array of its elements' values, with their common shape, iff every element has the first one's shape; otherwise exactly the differing elements get a mismatch error and nothing is written |
| Properties.SizedLiteral | src/com/alchitry/labs/parsers/lucidv2/ExprParser.kt:57-113 | a sized literal with a non-number width is an error; otherwise it has the given width, is unsigned, reads as the digits modulo `2^width`, and warns exactly when the digits need more bits |
| Properties.RepeatIndex | src/com/alchitry/labs/parsers/lucidv2/ExprParser.kt:294-297 | item `i` of a repetition is item `i mod |xs|` |
| Properties.DupSimple | src/com/alchitry/labs/parsers/lucidv2/ExprParser.kt:273-298 | `{n{v}}` has width `w·n`, bit `i` is bit `i mod w` of `v`, signedness kept |
| Properties.DupRejects | src/com/alchitry/labs/parsers/lucidv2/ExprParser.kt:242-271 | a non-constant count or a count with X/Z bits is an error at the count, and nothing is written |
| Properties.AddSubSimple | src/com/alchitry/labs/parsers/lucidv2/ExprParser.kt:392-414 | width `max(w1, w2) + 1`, signed iff both are, all X on an X/Z operand, else the sum or difference modulo `2^width` |
| Properties.AddSubNumbers | src/com/alchitry/labs/parsers/lucidv2/ExprParser.kt:408-413 | two numbers give the exact result fitted to `max + 1` bits |
| Properties.AddSubExact | src/com/alchitry/labs/parsers/lucidv2/ExprParser.kt:408-413 | the sum of same-signedness numbers and the difference of signed numbers read back exactly |
| Properties.AddSubRejects | src/com/alchitry/labs/parsers/lucidv2/ExprParser.kt:385-390 | a non-flat operand gives one or two add/sub errors, and nothing is written |
| Properties.AddSubUndefined | src/com/alchitry/labs/parsers/lucidv2/ExprParser.kt:396-402 | an undefined operand of known widths gives an undefined result of width `max + 1` |
| Properties.NegateNumber | src/com/alchitry/labs/parsers/lucidv2/ExprParser.kt:352-357 | negation keeps width and flag, reads as the negation modulo `2^width`, and is exact for signed values other than the most negative |
| Properties.MultiplySimple | src/com/alchitry/labs/parsers/lucidv2/ExprParser.kt:450-456 | `*` has the library's product width, is signed iff both operands are, is all X on an X/Z operand, else reads as the product modulo `2^width`, exactly when the product fits |
| Properties.MultDivUndefined | src/com/alchitry/labs/parsers/lucidv2/ExprParser.kt:437-443 | `*` or `/` with an undefined operand of known widths gives an undefined result of the library's product width, signed iff both are |
| Properties.DivideSimple | src/com/alchitry/labs/parsers/lucidv2/ExprParser.kt:457-462 | `/` keeps the dividend's width; an X/Z operand or zero divisor gives all X with no diagnostic; else the truncated quotient |
| Properties.DivideNumbers | src/com/alchitry/labs/parsers/lucidv2/ExprParser.kt:458-462 | two numbers with a non-zero divisor give the truncated quotient fitted to the dividend's width |
| Properties.DivideUnsignedExact | src/com/alchitry/labs/parsers/lucidv2/ExprParser.kt:458-462 | unsigned division reads back as the exact quotient |
| Properties.CdivZeroRejected | src/com/alchitry/labs/parsers/lucidv2/ExprParser.kt:1043-1046 | CDIV by zero is an error at the divisor and writes nothing |
| Properties.CdivValue | src/com/alchitry/labs/parsers/lucidv2/ExprParser.kt:1040-1054 | CDIV by a non-zero number writes the exact ceiling |
| Properties.ShiftSimple | src/com/alchitry/labs/parsers/lucidv2/ExprParser.kt:482-505 | signed only for `>>>`/`<<<` of a signed value; an undefined amount gives an undefined result of unknown width; an X/Z amount gives all X at the value's width |
| Properties.ShiftLeftValue | src/com/alchitry/labs/parsers/lucidv2/ExprParser.kt:508-513 | `<<` by `n` widens by `n` and multiplies by `2^n` |
| Properties.ShiftRightValue | src/com/alchitry/labs/parsers/lucidv2/ExprParser.kt:508-512 | `>>` of a number keeps the width, is unsigned and reads as the unsigned reading divided by `2^n`; `>>>` keeps width and flag and reads as the floor of the reading divided by `2^n` |
| Properties.ShiftUndefinedValueFails | src/com/alchitry/labs/parsers/lucidv2/ExprParser.kt:491-501 | an undefined value shifted by a simple amount is written and then the handler throws |
| Properties.UndefinedGivesOneBit | src/com/alchitry/labs/parsers/lucidv2/ExprParser.kt:583-586 | the one-bit undefined value is one bit wide and unsigned; reduction on an undefined operand gives it, and so do ordering (lines 696-699), equality (721-724) and logical operators (757-760) |
| Properties.OrderingComplements | src/com/alchitry/labs/parsers/lucidv2/ExprParser.kt:708-734 | on numbers `<`/`>=`, `>`/`<=` and `==`/`!=` give complementary bits |
| Properties.TernaryUndefinedSelector | src/com/alchitry/labs/parsers/lucidv2/ExprParser.kt:800-813 | with branches that pass the shape screen, the common width exists iff the shapes are equal or both widths are known, and is the shared shape or the wider width; an undefined selector then gives an undefined result at that width, signed iff both branches are, and without one the unknown-width error |
| Properties.TernarySelects | src/com/alchitry/labs/parsers/lucidv2/ExprParser.kt:815-827 | a true selector picks the first branch, else the second; branches of equal shape are written unchanged, simple branches are resized to the wider width with their value kept |
| Properties.TernaryWidthBugReachable | src/com/alchitry/labs/parsers/lucidv2/ExprParser.kt:816-823 | the handler's width-bug error is reached by an undefined narrow branch |
| Properties.PowerValue | src/com/alchitry/labs/parsers/lucidv2/ExprParser.kt:894-917 | POWER of two numbers with an exponent in `Int` range and not negative writes `b^e`; any other exponent is the value-bigger-than-int error at the exponent |
| Properties.CallScreens | src/com/alchitry/labs/parsers/lucidv2/ExprParser.kt:846-873 | a wrong argument count (exact or minimum) or a non-constant call of a const-only function is an error that writes nothing; otherwise the builtin decides |
| Properties.Clog2Value | src/com/alchitry/labs/parsers/lucidv2/ExprParser.kt:874-893 | CLOG2 of a positive number writes the least `k` with `2^k >= n` |
| Properties.BuildWrites | src/com/alchitry/labs/parsers/lucidv2/ExprParser.kt:977-1007 | BUILD writes a value iff the width divides evenly, with the nested shape; else the not-divisible error |
| Properties.ResizeValue | src/com/alchitry/labs/parsers/lucidv2/ExprParser.kt:1084-1091 | RESIZE writes the number resized to the new width; the warning is the corrected one (see Findings), firing exactly when the value changes |
| Properties.ReverseInvolutive | src/com/alchitry/labs/parsers/lucidv2/ExprParser.kt:925 | reversing twice gives the value back |
| Properties.FlattenKeepsBits | src/com/alchitry/labs/parsers/lucidv2/ExprParser.kt:932 | flattening keeps every bit in order as one unsigned value |
| Properties.SignKeepsBits | src/com/alchitry/labs/parsers/lucidv2/ExprParser.kt:1009-1022 | SIGNED and UNSIGNED change only the flag |
| Properties.InvertInvolutive | src/com/alchitry/labs/parsers/lucidv2/ExprParser.kt:368 | `~` twice gives back a value without X/Z bits |
| Properties.BitwiseDefined | src/com/alchitry/labs/parsers/lucidv2/ExprParser.kt:533-567 | `&`, `|`, `^` of defined values write the reference operation when both are flat or the shapes agree, else a mismatch error at the second operand |
| Properties.BitwiseUndefined | src/com/alchitry/labs/parsers/lucidv2/ExprParser.kt:533-558 | with an undefined operand the result is undefined, with the common known width (else unknown), signed iff both are, when both operands are flat and known widths agree; otherwise mismatch errors and nothing written |
| Properties.BitwiseCommutes | src/com/alchitry/labs/parsers/lucidv2/ExprParser.kt:565-567 | `&`, `|`, `^` of simple values do not depend on operand order |
| Scenarios.SevenBits | src/com/alchitry/labs/parsers/lucidv2/ExprParser.kt:412 | 7 fitted to four unsigned bits is `0111` |
| Scenarios.AddFiveTwo | src/com/alchitry/labs/parsers/lucidv2/ExprParser.kt:408-413 | `3d5 + 3d2` is the four-bit 7 |
| Scenarios.DupTwice | src/com/alchitry/labs/parsers/lucidv2/ExprParser.kt:293-298 | `{2{2b01}}` is `4b0101` |
| Scenarios.Clog2Examples | src/com/alchitry/labs/parsers/lucidv2/ExprParser.kt:888-892 | `clog2(8) = 3`, `clog2(9) = 4` |
| Scenarios.DivideByZero | src/com/alchitry/labs/parsers/lucidv2/ExprParser.kt:459-460 | `3d5 / 1d0` is three X bits with no diagnostic |
| Scenarios.CdivByZero | src/com/alchitry/labs/parsers/lucidv2/ExprParser.kt:1043-1046 | `$cdiv(3d5, 1d0)` is an error at the divisor |
| Scenarios.SizedLiteral | src/com/alchitry/labs/parsers/lucidv2/ExprParser.kt:104-113 | `4d7` is `0111` |
| Scenarios.EvaluateSum | src/com/alchitry/labs/parsers/lucidv2/ExprParser.kt:373-414 | two literal handlers then the add handler on a fresh evaluator write the constant four-bit 7 and no diagnostic |

## Left out

- Parse-tree plumbing: nodes are abstract identifiers, children are passed to each handler, and the operator token is a parameter. The `childCount`/`expr().size` guards and the `else` branches for unknown operator tokens cannot be reached from such calls.
- Radix parsing of literal digits, `unescapeJava` of string literals, and the literal's digit string: a literal is given as its digit bits (unsigned, natural width) or its character codes.
- The `Function` enumeration is not part of this model: the evaluator takes its table as a constructor parameter, each entry with a name, a builtin, an argument count and a const-only flag.
- `widthOfMult` is a library function outside this model; the evaluator takes it as a parameter. A negative product width is taken to make `MutableBitList` throw (Operators.MultDivRule). `/` of an undefined operand also uses it for the result width (lines 440-441).
- Operators.TernaryRule: a negative common width is taken as the handler's width-bug error, since `isDefinedFlatArray` (line 817) is not part of this model.
- Builtins.ResizeRule / Properties.ResizeValue: the warning uses the corrected comparison (the value's minimum width exceeds the new width), not line 1084's `minBits() < numBits`; the code as written is `Findings.ResizeWarningInverted`, and Parser.ExprParser.ExitFunction inherits the corrected warning through `CallRule`.
- The value package is not part of this model. Its operations have reference definitions in `Values` and `Bits`; the model claims no more about them than the handlers rely on. Structs are identified by a number, and their members are not checked against a type.
- Diagnostic message text, `debug` output, and the stub handlers `exitSignal`, `exitParam_constraint` and `exitStruct_const`.
- The editor helper `LucidNewLineIndenter.java` is UI tooling and is not part of this model.
- CLOG2 uses natural logarithms over decimals; the model uses the exact `⌈log2 n⌉`. A negative argument is taken to throw.
- Builtins.CeilDiv: the exact ceiling, not the decimal computation; `Findings` shows where they differ.
- `toBigInt` of a vector with X or Z bits is taken to throw, wherever the handlers call it without an `isNumber` check (CLOG2, POWER, CDIV, and the shift of an undefined value by an amount with X or Z bits, whose result width is read at `ExprParser.kt:493-494`).
- Bits.Amount: a negative shift amount (an amount at or above `2^31` read as an `Int`) shifts by nothing; the library's behaviour for it is not modelled.
- Operators.LiteralRule: a width prefix that is negative or does not fit an `Int` is taken to throw.
- The width of a simple value is an unbounded length; `Int` wrap-around is modelled only where the handlers do arithmetic on `Int` widths (undefined results, `bitCount`, shift and replication counts, BUILD's `Long` factor).
- An empty array literal's element shape is taken to be a zero-width flat array.

## Findings

| source | as written | input that shows it | evidently intended | confidence | as-written member | corrected member |
|---|---|---|---|---|---|---|
| src/com/alchitry/labs/parsers/lucidv2/ExprParser.kt:1048-1054 | CDIV divides two decimals rounded HALF_UP to ten fractional digits, then takes the ceiling | `$cdiv(100000000001, 100000000000)` gives 1 | the ceiling of the quotient, 2 | not executed | Findings.CdivRoundingLosesFraction | Builtins.CeilDivBounds |
| src/com/alchitry/labs/parsers/lucidv2/ExprParser.kt:1084 | RESIZE warns when `minBits() < numBits` | `$resize(2b11, 1)` loses a bit without a warning; `$resize(1b1, 2)` warns though the value is kept | warn when the value needs more bits than it is given | not executed | Findings.ResizeWarningInverted | Builtins.ResizeWarnsExactly |
