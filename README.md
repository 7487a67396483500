# A verified model of a Brainfuck parser, printer and interpreter

src/brainfuck.cpp reads a Brainfuck file and works in three steps.

- **Parser.** A recursive-descent `parse` turns the file into a tree. Each
  maximal run of one command character becomes a `CommandNode` that carries
  the run length. Each `[...]` becomes a `Loop`.
- **Printer.** A `Printer` visitor writes the tree back out. Each leaf is
  written as its count followed by a marker character.
- **Interpreter.** An `Interpreter` visitor runs the tree on a 30000-byte
  tape. A loop is re-run while the cell under the cursor is `> 0`.

This project models all of that except `main`, in Dafny. The modules follow
the program's parts:

| module | models |
|---|---|
| `Ast` | `Command`, `CommandNode`, `Loop` and `Program`. The character-to-tag `switch` of the `CommandNode` constructor; `Invalid` stands for the tag it leaves unset. |
| `Parsing` | `parse` as written. `ParseFrom` specifies one call. The `Stream`/`Container` classes and the `Parse` method follow the C++ loop step by step (`>>` skips whitespace, `peek` does not). `Parse` is proved to append exactly what `ParseFrom` says. |
| `IntendedParsing` | The same parser with the evident `else` restored. Round trips both ways for it: tree to text to tree, and balanced text to tree to text. Proofs that the parser as written breaks the first, and keeps the second only for text without brackets. |
| `Printing` | The `Printer` visitor as a function to text. A reader for the printed notation, and the round trip between them. What a parsed file prints as. |
| `Semantics` | What the `Interpreter` computes, as pure functions on an explicit state: tape, cursor, unread input and output written so far. Loop iterations are bounded by fuel. |
| `Execution` | The `Interpreter` as a class, with an `array` tape and the source's count-down loops and `while (*ptr > 0)` loop. Each visit is proved to end in the state `Semantics` computes. |
| `Scenarios` | Small programs from source text to output, including the ones that show the two defects under "Findings". |

Modelling choices:

- A cell is a byte `0..255` (`Semantics.Cell`), holding the bit pattern of
  the C `char`. The loop test `*ptr > 0` reads that byte as a signed `char`,
  so a loop is entered only for 1..127 (`Semantics.Signed`, `LoopTest.SignedPositive`).
  `LoopTest.NonZero` is the usual Brainfuck test (jump past the loop when the
  cell is zero). It is kept beside the source's test so the two can be
  compared. The class always uses the source's test.
- `getchar()` at end of input returns -1. Stored in a `char`, that is the
  byte 255 (`Semantics.EofCell`).
- Moving the cursor off the tape is undefined behaviour in the source. The
  model returns the error `TapeBoundsExceeded` instead.
- A loop that runs out of fuel returns the error `OutOfFuel`.
- An error ends the run as `Fail(error, state)`. The state is the one
  reached when the error happened, so the output written before the error is
  kept (`Semantics.RunProgramFailureOutput`). The final `'\n'` is not written.

## Model

| member | source | states |
|---|---|---|
| Ast.CommandOf | src/brainfuck.cpp:67-78 | a tag the constructor sets is the command written with the character it was given |
| Ast.CommandOfChars | src/brainfuck.cpp:67-78 | the constructor sets a tag exactly for the seven characters `+-<>,.0`; any other character, brackets included, leaves it unset (`Invalid`) |
| Ast.CommandOfSourceChar | src/brainfuck.cpp:69-77 | each valid tag has its own one of the seven characters, and the constructor maps that character back to the tag |
| Parsing.IsSpace | src/brainfuck.cpp:121 | the whitespace `file >> c` skips is exactly space, tab, newline, vertical tab, form feed and carriage return |
| Parsing.SkipSpace | src/brainfuck.cpp:121 | `file >> c` lands at or after the stream position, on a non-space character or at end of input |
| Parsing.SkipSpaceSkipsOnlySpace | src/brainfuck.cpp:121 | everything `file >> c` skips is whitespace |
| Parsing.RunLength | src/brainfuck.cpp:141-144 | the `peek` loop stops at end of input or at the first character different from `c` |
| Parsing.RunLengthIsRun | src/brainfuck.cpp:141-144 | every character the `peek` loop counts is `c` |
| Parsing.RunLengthOfMaximalRun | src/brainfuck.cpp:141-144 | a maximal run of `n` copies of `c` is counted as exactly `n` |
| Parsing.ParseFrom | src/brainfuck.cpp:116-148 | one call returns either just after a `]` it read (closed) or at end of input, and never moves the stream backwards |
| Parsing.ParseUnit | src/brainfuck.cpp:123-146 | one turn of the loop always consumes at least one character and stays within the input |
| Parsing.ParseStopsAtClose | src/brainfuck.cpp:138 | reading `]` returns without appending anything, with the stream just after the `]` |
| Parsing.ParseRun | src/brainfuck.cpp:139-145 | a maximal run of `n >= 1` identical non-bracket characters becomes exactly one node with that character's tag and count `n`, and consumes exactly those `n` characters |
| Parsing.ParseCountsPositive | src/brainfuck.cpp:140-145 | every command node the parser builds, at any depth, has count at least 1 |
| Parsing.ParseUnitCountsPositive | src/brainfuck.cpp:123-146 | the nodes of one turn have counts at least 1 |
| Parsing.ParseLoopsFollowedByInvalid | src/brainfuck.cpp:123-146 | every loop the parser appends is directly followed by a node built from `[` whose tag was never set |
| Parsing.ParseIgnoresRest | src/brainfuck.cpp:138 | a call that returned on `]` has read nothing past it: the result is the same on any stream that agrees up to there |
| Parsing.ParseUnitIgnoresRest | src/brainfuck.cpp:123-146 | one turn reads nothing past where it stops |
| Parsing.UnmatchedCloseIgnoresRest | src/brainfuck.cpp:138 | an unmatched `]` at top level stops parsing, and anything appended after it is ignored |
| Parsing.Stream.constructor | src/brainfuck.cpp:116 | a stream over the file text, positioned at its start |
| Parsing.Stream.Read | src/brainfuck.cpp:121 | `file >> c` skips whitespace and yields the next character, or nothing at end of input |
| Parsing.Stream.Peek | src/brainfuck.cpp:141 | `file.peek()` yields the next character without skipping whitespace or moving the stream |
| Parsing.Container.constructor | src/brainfuck.cpp:84-88 | a new container has no children |
| Parsing.Parse | src/brainfuck.cpp:116-148 | `parse` appends to the container exactly the nodes `ParseFrom` describes, in source order, keeps the existing children, and leaves the stream where `ParseFrom` ends |
| Parsing.ParseTurn | src/brainfuck.cpp:123-146 | one turn of the loop: a nested loop if the character is `[` and then, there being no `else`, a run node; it appends exactly `ParseUnit`'s nodes |
| Parsing.ReadRun | src/brainfuck.cpp:140-144 | the run count is 1 plus the length of the maximal run that follows, and the stream advances past it |
| Parsing.ParseProgram | src/brainfuck.cpp:116-148 | parsing a file into a fresh root gives exactly the nodes `ParseFrom` describes from the start |
| IntendedParsing.ParseIntended | src/brainfuck.cpp:116-148 | the parser with the `else` restored returns just after a `]` or at end of input |
| IntendedParsing.ParseUnitIntended | src/brainfuck.cpp:123-146 | one turn of the corrected loop consumes at least one character |
| IntendedParsing.ParseExpand | src/brainfuck.cpp:116-148 | the corrected parser reads the text of a canonical tree, followed by `]` or end of input, back as exactly that tree, and stops after the `]` or at the end |
| IntendedParsing.UnitExpand | src/brainfuck.cpp:123-146 | one turn of the corrected parser reads one canonical node's text as that node |
| IntendedParsing.RunExpand | src/brainfuck.cpp:139-145 | a maximal run of one command character is read as one leaf with the run's length |
| IntendedParsing.RoundTrip | src/brainfuck.cpp:116-148 | corrected parser: parsing the text of any canonical tree gives that tree back and consumes the whole text |
| IntendedParsing.AsWrittenRoundTripFails | src/brainfuck.cpp:123-146 | parser as written: for every canonical tree with a loop at top level, parsing its text does not give the tree back |
| IntendedParsing.MissingElseAddsNode | src/brainfuck.cpp:123-146 | `[+]`: the parser as written gives the loop and an extra untagged node; the corrected parser gives the loop alone |
| IntendedParsing.MissingElseSwallowsLoop | src/brainfuck.cpp:123-146 | `[+][-]`: as written, the second `[` is swallowed into an untagged run of 2, its body is parsed at top level, and its `]` ends the parse; the corrected parser gives two loops |
| IntendedParsing.AgreeWithoutLoops | src/brainfuck.cpp:116-148 | on text without `[` the two parsers agree |
| IntendedParsing.ParseReadsText | src/brainfuck.cpp:116-148 | corrected parser, any text of command characters and brackets, any start: the tree it builds is canonical, its first leaf has the tag of the first character, and its text is what the call consumed before the `]` it returned on, or, at end of input, the rest of the text followed by the `]`s of the loops left open |
| IntendedParsing.BalancedRunsToEnd | src/brainfuck.cpp:138 | corrected parser: on text whose brackets balance, the top-level call never returns on a `]` |
| IntendedParsing.BalancedTextExpands | src/brainfuck.cpp:116-148 | corrected parser: on balanced text the tree's text is the input itself, with no loop left open |
| IntendedParsing.TextRoundTrip | src/brainfuck.cpp:116-148 | corrected parser, text to tree to text: balanced command-and-bracket text is read to its end into a canonical tree whose text is the input |
| IntendedParsing.AsWrittenTextRoundTrip | src/brainfuck.cpp:139-146 | parser as written: text of command characters without brackets is read to its end into a canonical tree whose text is the input; only the `[` branch breaks the round trip |
| IntendedParsing.CanonicalIsValid | src/brainfuck.cpp:63-82 | a canonical tree has only set tags and counts of at least 1, so the printer's read-back applies to what the parser builds |
| Printing.DecimalDigits | src/brainfuck.cpp:159-165 | `<< count` writes a minus sign exactly for a negative count, then decimal digits whose value is the count's magnitude |
| Printing.PrintNode | src/brainfuck.cpp:157-174 | a leaf prints nothing exactly when its tag was never set (no `case` matches); a loop prints between `[` and `]` |
| Printing.PrintedNodeBalanced | src/brainfuck.cpp:157-174 | one printed node opens as many loops as it closes and holds no newline |
| Printing.PrintedBalanced | src/brainfuck.cpp:168-174 | the printed children of a container open as many loops as they close and hold no newline |
| Printing.PrintProgram | src/brainfuck.cpp:175-180 | the printed program ends in `'\n'` |
| Printing.PrintedProgramLine | src/brainfuck.cpp:175-180 | the printed program is one line with balanced brackets, followed by `'\n'` |
| Printing.NaturalDigits | src/brainfuck.cpp:159-165 | a non-negative count prints as decimal digits only |
| Printing.ValueNatural | src/brainfuck.cpp:159-165 | the printed digits of a count have that count as their value |
| Printing.MarkerOf | src/brainfuck.cpp:159-165 | the seven markers are neither digits nor brackets, and each names its command |
| Printing.LeafDigits | src/brainfuck.cpp:157-166 | a printed leaf is its count's digits followed by its marker |
| Printing.ReadLeaf | src/brainfuck.cpp:157-166 | a printed leaf reads back as the same leaf |
| Printing.PrintLoopSlices | src/brainfuck.cpp:168-174 | a printed loop is `[`, its children's printed form, then `]` |
| Printing.ReadNode | src/brainfuck.cpp:157-174 | any printed node with valid tags and positive counts reads back as that node |
| Printing.ReadPrint | src/brainfuck.cpp:157-174 | the printed children of a container read back as the same children, stopping at the closing `]` or at the end |
| Printing.PrintRoundTrip | src/brainfuck.cpp:155-181 | the printed program ends in `'\n'`, and the text before it reads back as the program's children |
| Printing.PrintParsedText | src/brainfuck.cpp:116-181 | corrected parser then printer: for balanced command-and-bracket text, the printed tree reads back as the tree the text parsed to, and that tree's text is the input |
| Printing.PrintParsedTextAsWritten | src/brainfuck.cpp:116-181 | parser as written then printer: the same for text without brackets |
| Semantics.AddCongruent | src/brainfuck.cpp:190-198 | `++(*ptr)` and `--(*ptr)` on a `char` byte: adding `k` gives exactly the byte congruent to the cell plus `k` modulo 256 |
| Semantics.Signed | src/brainfuck.cpp:226 | a cell read as a signed `char` lies in -128..127 and is negative exactly for bytes 128..255 |
| Semantics.Enters | src/brainfuck.cpp:226 | the test `*ptr > 0` holds exactly for the bytes 1..127; the non-zero test holds for every byte but 0 |
| Semantics.ExecCommand | src/brainfuck.cpp:187-224 | a command leaf keeps the tape length and cursor range, only appends to output and only consumes input from the front, and fails only on a shift off the tape |
| Semantics.Step | src/brainfuck.cpp:190-219 | one pass of a count-down loop body keeps the tape length and the cursor on the tape |
| Semantics.StepIsSingleCommand | src/brainfuck.cpp:190-219 | one pass of the loop body of a repeated command is that command with count 1 |
| Semantics.ExecNodes | src/brainfuck.cpp:227-229 | running children in order keeps the machine state well formed |
| Semantics.ExecNode | src/brainfuck.cpp:54-57 | `accept` on either kind of node keeps the machine state well formed |
| Semantics.ExecLoop | src/brainfuck.cpp:225-231 | a loop keeps the machine state well formed |
| Semantics.Reset | src/brainfuck.cpp:233-234 | the reset state is well formed |
| Semantics.IterateAdd | src/brainfuck.cpp:190-198 | `n` passes of `++(*ptr)` or `--(*ptr)` add `n` or `-n` to the cursor cell, modulo 256 |
| Semantics.IterateShift | src/brainfuck.cpp:200-209 | `n` passes of `--ptr` or `++ptr` move the cursor by `n`, failing when the target is off the tape |
| Semantics.IterateInput | src/brainfuck.cpp:210-214 | `n` passes of `*ptr = getchar()` leave the `n`-th input byte in the cell, or 255 once input is exhausted |
| Semantics.IterateOutput | src/brainfuck.cpp:215-219 | `n` passes of `putchar(*ptr)` append `n` copies of the cell |
| Semantics.ExecCommandIsIterate | src/brainfuck.cpp:187-224 | each repeated command's effect equals running its one-step loop body `count` times (none for `count <= 0`) |
| Semantics.AddChangesOnlyCursorCell | src/brainfuck.cpp:190-198 | increment or decrement by `k` changes only the cursor cell, by `+k` or `-k` modulo 256; cursor, other cells and streams stay |
| Semantics.DecrementUndoesIncrement | src/brainfuck.cpp:190-198 | `k` decrements undo `k` increments |
| Semantics.IncrementWrapsAround | src/brainfuck.cpp:190-194 | 256 increments bring a cell back to its value |
| Semantics.ShiftLeftUndoesShiftRight | src/brainfuck.cpp:200-209 | a right shift that stays on the tape is undone by a left shift by the same count |
| Semantics.ShiftMovesCursor | src/brainfuck.cpp:200-209 | shifts succeed exactly when the target is on the tape, and change neither the tape nor the streams |
| Semantics.ZeroIdempotent | src/brainfuck.cpp:220-222 | `Zero` sets the cell to 0 whatever its count, and applying it twice equals applying it once |
| Semantics.LoopSkipped | src/brainfuck.cpp:225-231 | a loop whose test fails on entry runs its body zero times |
| Semantics.LoopExit | src/brainfuck.cpp:225-231 | a finished loop leaves a cell on which its test fails |
| Semantics.LoopExitSigned | src/brainfuck.cpp:226 | under `*ptr > 0`, a finished loop leaves 0 or a byte 128..255 under the cursor |
| Semantics.NodesFuelMonotone | src/brainfuck.cpp:227-229 | a run that does not run out of fuel gives the same outcome with more fuel |
| Semantics.NodeFuelMonotone | src/brainfuck.cpp:54-57 | the same for one node |
| Semantics.LoopFuelMonotone | src/brainfuck.cpp:225-231 | the same for a loop |
| Semantics.ClearBodyDecrements | src/brainfuck.cpp:195-198 | the body of `[-]` decrements the cursor cell once |
| Semantics.ClearLoopClears | src/brainfuck.cpp:225-231 | under the non-zero test, given enough fuel, `[-]` sets any cell to 0 and changes nothing else |
| Semantics.ClearLoopSigned | src/brainfuck.cpp:226 | under `*ptr > 0`, `[-]` clears a cell holding 0..127 and leaves a cell holding 128..255 as it is |
| Semantics.NodesAdvance | src/brainfuck.cpp:210-219 | running children only appends to output and only consumes input from the front |
| Semantics.NodeAdvances | src/brainfuck.cpp:210-219 | the same for one node |
| Semantics.LoopAdvances | src/brainfuck.cpp:225-231 | the same for a loop |
| Semantics.SilentNodes | src/brainfuck.cpp:215-219 | children without an `Output` leaf write nothing |
| Semantics.SilentNode | src/brainfuck.cpp:215-219 | the same for one node |
| Semantics.SilentLoop | src/brainfuck.cpp:225-231 | the same for a loop |
| Semantics.RunProgramOutput | src/brainfuck.cpp:232-239 | a program that finishes keeps the output it was given, extends it with what its children write, and then writes `'\n'` last; without `Output` leaves the `'\n'` is all it writes |
| Semantics.RunProgramFailureOutput | src/brainfuck.cpp:232-239 | a program that stops on an error keeps the output written before the error, and writes no `'\n'` |
| Execution.Interpreter.constructor | src/brainfuck.cpp:185-186 | a fresh 30000-cell tape, with the given input and no output |
| Execution.Interpreter.VisitCommand | src/brainfuck.cpp:187-224 | the visit's count-down loops leave the interpreter in the state `ExecCommand` computes, or report its error |
| Execution.Interpreter.CountDown | src/brainfuck.cpp:187-224 | `count` passes of one command's loop body leave the interpreter in the state that many `Step`s reach, stopping at the first error and reporting it |
| Execution.Interpreter.StepOnce | src/brainfuck.cpp:190-219 | one pass of a count-down loop body changes the state as `Step` says |
| Execution.Interpreter.VisitNodes | src/brainfuck.cpp:227-229 | visiting children in order ends in the state `ExecNodes` computes, or reports its error |
| Execution.Interpreter.VisitNode | src/brainfuck.cpp:54-57 | `accept` dispatches to the visit for the node's kind, with the outcome `ExecNode` computes |
| Execution.Interpreter.VisitLoop | src/brainfuck.cpp:225-231 | `while (*ptr > 0)` re-running the children ends in the state `ExecLoop` computes under the signed test |
| Execution.Interpreter.VisitProgram | src/brainfuck.cpp:232-239 | zeroing the tape, resetting the cursor, visiting the children and writing `'\n'` ends in the state `RunProgram` computes |
| Scenarios.ParseThreePlus | src/brainfuck.cpp:139-145 | `+++.` parses as a run of three increments and one output |
| Scenarios.RunThreePlus | src/brainfuck.cpp:232-239 | those nodes write the byte 3, then `'\n'` |
| Scenarios.ThreePlusWritesThree | src/brainfuck.cpp:232-239 | from source to output, `+++.` writes 3 and then `'\n'` |
| Scenarios.ParseDoubling | src/brainfuck.cpp:123-146 | `++[>++<-]>.` parses as two increments, the loop, an untagged node, a shift and an output |
| Scenarios.ParseDoublingLoop | src/brainfuck.cpp:123-146 | from its `[` on: the loop, the untagged node for `[`, then `>` and `.` |
| Scenarios.ParseDoublingBody | src/brainfuck.cpp:138-145 | `>++<-]` parses as the loop body and returns after the `]` |
| Scenarios.ParseDoublingBodyMiddle | src/brainfuck.cpp:138-145 | `++<-]` parses as the last three leaves of the body |
| Scenarios.ParseDoublingBodyEnd | src/brainfuck.cpp:138-145 | `<-]` parses as the last two leaves of the body |
| Scenarios.ParseDoublingTail | src/brainfuck.cpp:139-145 | `>.` parses as one shift and one output |
| Scenarios.DoubleBodyOnce | src/brainfuck.cpp:187-224 | one pass of `>++<-` adds 2 to the right neighbour and takes 1 from the cell |
| Scenarios.DoublingLoop | src/brainfuck.cpp:225-231 | `[>++<-]` on a cell holding 0..127 adds twice its value to the right neighbour and clears it |
| Scenarios.RunDoubling | src/brainfuck.cpp:232-239 | the parsed doubling program writes 4, then `'\n'` |
| Scenarios.DoublingTail | src/brainfuck.cpp:205-219 | after the loop, the untagged node does nothing and `>.` writes the right neighbour |
| Scenarios.DoublingWritesFour | src/brainfuck.cpp:232-239 | from source to output, `++[>++<-]>.` writes 4 and then `'\n'` |
| Scenarios.SkipUntagged | src/brainfuck.cpp:187-224 | a node whose tag was never set leaves the state as it is (see Left out) |
| Scenarios.ParseRunThenClear | src/brainfuck.cpp:123-146 | a run followed by `[-]` parses as the run, the clearing loop and an untagged node |
| Scenarios.ParseClearAtEnd | src/brainfuck.cpp:123-146 | `[-]` at the end of the text parses as the loop and an untagged node |
| Scenarios.DrainLeavesZero | src/brainfuck.cpp:225-231 | `+++++[-]` leaves an all-zero tape and writes only `'\n'` |
| Scenarios.RunThenClear | src/brainfuck.cpp:225-231 | a run of increments or decrements then `[-]`: cleared under the non-zero test; under `*ptr > 0` the cell is kept when its value is 128..255 |
| Scenarios.MinusClearAsWrittenAndIntended | src/brainfuck.cpp:226 | `-[-]` leaves 255 in the cell under `*ptr > 0`, but an all-zero tape under the non-zero test |
| Scenarios.EmptySourceWritesNewline | src/brainfuck.cpp:232-239 | an empty file parses to no children and writes only `'\n'` |
| Scenarios.LeadingCloseWritesNewline | src/brainfuck.cpp:138 | a file whose first non-blank character is `]` parses to no children, whatever follows, and writes only `'\n'` |

## Left out

- `main` (argument handling and opening files) is not modelled. Note that it
  reuses one `Program` for all files, so children accumulate across files.
  `Parsing.ParseProgram` parses one file into a fresh root.
- Real I/O is not modelled. `getchar`, `putchar` and `cout` become an input
  sequence and an output sequence of bytes. The printer returns its text
  instead of writing it.
- Bytes 0x80-0xFF in the file are not modelled. The run loop compares a
  signed `char` with the `int` that `peek()` returns, so such bytes do not
  form runs, and a 0xFF byte equals `peek()`'s end-of-file value -1. The model
  reads text as `char`s, where neither happens.
- Parsing.ReadRun: the count is an unbounded integer. The source's `int`
  could overflow on a run longer than 2^31-1 characters.
- Semantics.ExecCommand: a shift off the tape is reported as an error rather
  than modelled as undefined behaviour. The source only misbehaves when the
  pointer is dereferenced off the tape, so a shift out and straight back in is
  an error here but harmless there.
- Semantics.ExecCommand: a `CommandNode` whose tag was never set (`Invalid`)
  does nothing here. The parser builds one for `[`, and for every character
  outside the seven commands and the brackets, such as comment text. In the
  source its `command` field is uninitialised, so the `switch` reads an
  indeterminate value, which is undefined behaviour. If that value happened to
  be 0 (`INCREMENT`), `+++++[-]` would leave 1 in the cell, not 0.
  `Scenarios.DrainLeavesZero`, `Scenarios.DoublingTail`, `Scenarios.RunDoubling`,
  `Scenarios.DoublingWritesFour`, `Scenarios.RunThenClear` and
  `Scenarios.MinusClearAsWrittenAndIntended` depend on this choice.
- Printing.PrintNode: an untagged node prints nothing here, for the same
  reason. The printer's `switch` reads the same uninitialised tag. With the
  value 0, `+++++[-]` would print `5+[1-]1+` instead of `5+[1-]`.
- Semantics.ExecLoop: non-termination is not modelled. Loops run under a fuel
  bound and report `OutOfFuel` when it is exhausted.
- Execution.Interpreter.VisitCommand: the source has one count-down loop per
  `case`. The model has a single count-down loop around `StepOnce`, which holds
  the per-`case` body.
- Node allocation and ownership (`new` without `delete`) are not modelled,
  nor the commented-out loop-to-`Zero` optimisation, which is dead code.
- The `Visitor`/`accept` double dispatch becomes pattern matching over the
  `Node` datatype.

## Findings

| source | as written | input that shows it | evidently intended | confidence | as-written member | corrected member |
|---|---|---|---|---|---|---|
| src/brainfuck.cpp:123-146 | After the `[` branch there is no `else`, so the `[` also starts a run: every loop is followed by a node whose tag is never set, and a `[` right after a loop's `]` is swallowed into that run, so the second loop's body is parsed at the outer level and its `]` ends the parse | `[+][-]` | the `[` branch and the run branch are alternatives: `[+][-]` parses as two loops, and parsing the text of any canonical tree gives that tree back | not executed; high, it follows from the control flow alone | IntendedParsing.MissingElseSwallowsLoop | IntendedParsing.RoundTrip |
| src/brainfuck.cpp:226 | The loop test is `*ptr > 0` on a `char`, so where `char` is signed a cell holding 128..255 ends the loop as if it were zero | `-[-]`: the decrement leaves 255 and the clearing loop never runs | the Brainfuck test "cell is non-zero": `[-]` clears any cell | not executed; medium, it holds where plain `char` is signed (as on x86) | Scenarios.MinusClearAsWrittenAndIntended | Semantics.ClearLoopClears |

The rest of the model follows the code as written. `Parsing.Parse`,
`Execution.Interpreter` and the `Scenarios` use the parser without the `else`
and the signed loop test. The corrected parser and the non-zero test exist
beside them, so the intended properties can be stated and proved.
`IntendedParsing.TextRoundTrip` is the other direction of the corrected
parser's round trip, from balanced text to tree and back to text.
