# Verification of the milk image-processing core

This project models five parts of milk and proves what they compute. Every file is Dafny 4.11;
`dafny verify dfyconfig.toml` checks all of it.

**The image-arithmetic interpreter** (`Arith*.dfy`). A command such as `c = a*(b+2)` is cleaned, cut into
words, checked, and reduced in place: each pass over the word array removes braces around single words,
recomputes parenthesis levels and priorities, executes one operation and shifts the array left. There is
no parse tree. `ArithMachine` runs this over arrays and is proved equal to functions on word lists
(`ArithInterpreter`), whose action on values (`ArithPass`) is related to an evaluator defined by
recursion over the grammar (`ArithSyntax`). Operations are uninterpreted, so nothing algebraic hides a wrong
order. The selection records the first operation it meets at a deeper level with priority 0, so `(8/4/2)`
reduces `4/2` first. The exact extent of this is the predicate `ArithOrder.Ordered`: at every depth, the first
operation there, if it is `*`, `/` or a function, is not followed in its group by `*` or `/`. It is decided by one
left-to-right reading of the words. With it the result is right for all operations; without it the result is
wrong for the free ones. `ArithTextCommand` and `ArithTextValue` put the parts together: from the characters
typed to the tables afterwards, in terms of nothing but what is written, and `ArithErrors` says which commands are refused.

**Stream replication over UDP** (`Udp*.dfy`). A frame is cut into chunks of 62 KiB, each behind a two-byte
header written over the chunk already sent; the receiver is a resynchronising machine. The network is any
subsequence of the datagrams sent, in order. `UdpChannel` says exactly what is published in every run, and
`UdpFrames` which of it was sent.

**Stream replication over TCP** (`Tcp*.dfy`). Records of one slice each, in a byte stream with arbitrary
chunking; a start-up flush; a replica per slice; a stream that breaks off (`TcpTorn`).

**The stream logger** (`Logger*.dfy`). One loop fills two cube buffers in turn while a writer thread saves the
other. A run is any sequence of iterations, timeouts, external changes of the flags and ends of writer threads.
`LoggerSteps` says what one event does in any run.

**Cube transforms and name tables** (`Unfold`, `MergeCrop`, `Broadcast`, `Remap`, `SliceNormalize` with `SliceSums`, `FrameCube`,
`NameTable`, over `Cubes`, `Index`, `Decimals`, `Bytes`, `Wrappers`). Loops over flat row-major buffers, and the fixed tables
of images and variables looked up by name.

Each part has the same layout: functions that say what one step does, methods with the loops of the source proved
to compute them, and lemmas about every input or every run. Where the code does not do what one would
expect, a lemma gives an input; where another lemma gives the exact condition, it is named:

- chained division and a function before a product in a group (`ArithExamples`, exact in `ArithExact.ReductionExact`);
- a doubled group: `((a))*b` is never reduced (`ArithExamples`). That no group is doubled is enough for the loop to end,
  but it is not necessary: `((a))*(b+c)` has time to lose its braces (`ArithExamples.DoubledGroupMayEnd`);
- `(-x)*y` loses its operator: the word behind the group becomes a minus sign, so the value is the one with x negated exactly
  when the group is last or stands before `-` (`ArithNegation.NegationStep`, exact in `ArithNegationExact.NegationExact`). A
  variable x is negated wherever it occurs and stays negated; a number is negated only there (`ArithNegationCommand`);
- a function word left of `=` is taken for an operation: the command never ends exactly when more than one word stands
  right of it, and assigns to the name of the function otherwise (exact in `ArithTargets.FunctionTarget`);
- more than 128 datagrams to a frame are never published (`UdpFrames.NothingPublished`), and as many lost within one completed
  assembly as a frame has tear a frame (`UdpFrames.TornFrame`, exact in `UdpFrames.SentExactly`);
- a counter that is negative as an `int` selects a slice that does not exist (exact in `TcpStream.SliceInRange`);
- the slice sent is not always the one written last (exact in `TcpStream.SendsWrittenExactly`);
- a TCP stream that breaks off tears a slice, or writes outside the image (`TcpTorn.BreakWritesOutside`, exact in
  `TcpTorn.TornStream`);
- a flush of an empty cube lets the logger write into the buffer being saved (`LoggerLimits.EmptyCubeBreaksFile`, exact
  in `LoggerSafety.OverwritesExactly`);
- turning saving on goes unnoticed unless the next iteration finds a new frame (exact in `LoggerResets.NoticedAtOnceOrNever`);
- the tables of pixel unmap are too short exactly when a map value reaches the image size (`Remap.TablesFit`);
- the frame names of `breakcube` and `imgs2cube` agree exactly for names without a blank (`FrameCube.NamesAgree`);
- the last slot of a table cannot be looked up (`NameTable.LastSlotIsLost`).

## Model

| member | source | states |
|---|---|---|
| ArithTextCommand.TypedAssignment | src/COREMOD_arith/execute_arith.c:330-2090 | from the characters typed to the tables: a command name = e, spaces anywhere, e any expression over existing names in which every operation is in turn, gives name the value that is written, found by recursion over the grammar with the operation for each pair of operand types, left operand first; it prints it if it is a number, changes nothing else and leaves no temporary |
| ArithTextCommand.TypedExpression | src/COREMOD_arith/execute_arith.c:330-2090 | the same for a command that is an expression: a number is printed and nothing changes |
| ArithTextCommand.TypedCopy | src/COREMOD_arith/execute_arith.c:2045-2070 | name = w with one operand w: a number or variable is copied, an image is moved to its new name, and a name assigned to itself is deleted before it is read |
| ArithTextCommand.TypedNothing | src/COREMOD_arith/execute_arith.c:2072-2075 | name = with nothing behind prints the variable, or reads one that is not there |
| ArithTextCommand.TypedFunctionTarget | src/COREMOD_arith/execute_arith.c:644-2070 | a function word typed before = and more than one word behind it: the command never ends |
| ArithTextCommand.TypedMinus | src/COREMOD_arith/execute_arith.c:338-344 | name = -rest is read as name = 0-rest, for every rest |
| ArithTextCommand.TypedPlus | src/COREMOD_arith/execute_arith.c:345-350 | name = +rest is read as name = rest |
| ArithTextValue.TypedNumber | src/COREMOD_arith/execute_arith.c:833-850 | without images the value is the recursion over the grammar with the operations on numbers |
| ArithTextValue.TypedTextComesBack | src/COREMOD_arith/execute_arith.c:764-1109 | with operations that write down what they do, on numbers, images and both, a command gives back its own text without parentheses: every operation gets its operands in reading order |
| ArithErrors.RefusedExactly | src/COREMOD_arith/execute_arith.c:523-606 | a command of known words is refused if and only if there is a second =, an operator or a parenthesis left of =, an unknown word that is not, two operators in a row, a parenthesis opened behind an operand or a closing one, or a parenthesis without its partner |
| ArithErrors.OutsideTheModel | src/COREMOD_arith/execute_arith.c:445-519 | a command with ^ or a comma in it is outside the model |
| ArithTheorem.ReductionCorrect | src/COREMOD_arith/execute_arith.c:644-748 | for every expression of binary + - * /, nested parentheses and one-argument functions without a doubled group, over any operations, the reduction loop ends in exactly one operand; if no depth is spoiled that operand is the value of the left-associative two-precedence reference evaluator |
| ArithExact.ReductionExact | src/COREMOD_arith/execute_arith.c:720-745 | over results that record how they were computed the loop gives the reference value if and only if no depth is spoiled: at every depth the first operation, if it is * or / or a function, is not followed in its group by * or / |
| ArithTheorem.PassShortens | src/COREMOD_arith/execute_arith.c:644-748 | on an accepted word list of more than one word every pass removes at least one word |
| ArithTheorem.PassKeeps | src/COREMOD_arith/execute_arith.c:644-764 | a pass whose operation is in turn keeps the reference value, and keeps for every depth whether it is spoiled |
| ArithTheorem.LoopEnds | src/COREMOD_arith/execute_arith.c:644-645 | on every accepted word list the loop ends, in one operand |
| ArithTheorem.LoopComputesValue | src/COREMOD_arith/execute_arith.c:644-748 | on every accepted word list without a spoiled depth the loop ends in the reference value |
| ArithTheorem.StripKeeps | src/COREMOD_arith/execute_arith.c:648-660 | the single left-to-right removal of braces keeps the shape and the reference value of a word list and leaves no braced single operand |
| ArithTheorem.ExecuteKeepsShape | src/COREMOD_arith/execute_arith.c:1102-1109 | replacing the chosen operation by its result leaves an accepted word list |
| ArithTheorem.ExecuteKeepsValue | src/COREMOD_arith/execute_arith.c:764-1109 | replacing the chosen operation by its result keeps the reference value when the operation is in turn |
| ArithTheorem.ExecuteKeepsMarks | src/COREMOD_arith/execute_arith.c:732-745 | executing a chosen operation that is in turn spoils no depth and mends none |
| ArithTheorem.OutOfTurnSpoils | src/COREMOD_arith/execute_arith.c:732-745 | the chosen operation is out of turn only if some depth is spoiled |
| ArithTheorem.PrintAccepted | src/COREMOD_arith/execute_arith.c:523-600 | the words of every expression without a doubled group form an accepted word list |
| ArithPass.StripShortens | src/COREMOD_arith/execute_arith.c:648-660 | brace removal never lengthens the word list |
| ArithShape.ScanChooses | src/COREMOD_arith/execute_arith.c:725-748 | the selection scan finds the first operation at the deepest level and from there on the first one of the highest recorded priority, that first one counting as priority 0 |
| ArithShape.PickSurroundings | src/COREMOD_arith/execute_arith.c:720-764 | on a brace-stripped accepted list the chosen operator stands between two operands and the chosen function before one |
| ArithShape.NoOperationLeft | src/COREMOD_arith/execute_arith.c:720-764 | an accepted brace-stripped list that holds no operation is one operand |
| ArithReference.ValueOfPrint | src/COREMOD_arith/execute_arith.c:644-748 | the one-pass stack evaluator computes, from the words of an expression, the value defined by recursion over the grammar |
| ArithReference.ProductValue | src/COREMOD_arith/execute_arith.c:1102-1109 | replacing a * or / between two operands by its result keeps the value when no operator that binds as tightly waits on its left |
| ArithReference.SumValue | src/COREMOD_arith/execute_arith.c:1102-1109 | replacing a + or - between two operands by its result keeps the value when nothing around it binds tighter |
| ArithReference.CallValue | src/COREMOD_arith/execute_arith.c:1112-1118 | replacing a function and its operand by the result keeps the value |
| ArithReference.UnwrapValue | src/COREMOD_arith/execute_arith.c:648-660 | removing the braces around one operand keeps the value |
| ArithOrder.OutOfTurnIsPrimed | src/COREMOD_arith/execute_arith.c:732-737 | an operation chosen out of turn is the second one at its depth, behind a * or / or a function recorded with priority 0 |
| ArithOrder.PrimedIsOutOfTurn | src/COREMOD_arith/execute_arith.c:732-737 | conversely a * or / chosen behind such an operation is out of turn |
| ArithOrder.BinaryKeepsMark | src/COREMOD_arith/execute_arith.c:1102-1109 | executing a binary operation in turn leaves the mark of every depth |
| ArithOrder.UnaryKeepsMark | src/COREMOD_arith/execute_arith.c:1112-1118 | executing a function leaves the mark of every depth |
| ArithOrder.UnwrapKeepsMark | src/COREMOD_arith/execute_arith.c:648-660 | removing braces leaves the mark of every depth |
| ArithExact.LoopExact | src/COREMOD_arith/execute_arith.c:644-748 | on every accepted word list the loop result is the reference value if and only if no depth is spoiled |
| ArithExact.OutOfTurnIsWrong | src/COREMOD_arith/execute_arith.c:720-745 | an operation executed out of turn takes a left operand that differs from the one in the reference value, at a place that can be named |
| ArithExact.LoopKeepsEdges | src/COREMOD_arith/execute_arith.c:644-748 | an operation once executed keeps its left operand to the end of the loop |
| ArithExact.ValueKeeps | src/COREMOD_arith/execute_arith.c:644-748 | the reference value keeps every operation already executed in its place |
| ArithExamples.ChainedDivision | src/COREMOD_arith/execute_arith.c:732-737 | (a/b/c) is computed as a/(b/c) although its value is (a/b)/c |
| ArithExamples.FunctionTakesProduct | src/COREMOD_arith/execute_arith.c:732-737 | (f(a)*b) is computed as f(a*b) |
| ArithExamples.DoubledGroupNeverEnds | src/COREMOD_arith/execute_arith.c:648-660 | ((a))*b is not reduced: the loop repeats for ever |
| ArithExamples.DoubledGroupMayEnd | src/COREMOD_arith/execute_arith.c:644-748 | ((a))*(b+c) ends in the right value all the same |
| ArithExamples.LeadingFunctionIsChosen | src/COREMOD_arith/execute_arith.c:704-745 | a function word in front is chosen before everything outside parentheses, whatever follows |
| ArithTargets.FunctionTarget | src/COREMOD_arith/execute_arith.c:644-2070 | for every accepted right side: with a function word f left of = the command never ends if the right side has more than one word; a single word is assigned to a variable or image named f |
| ArithTargets.NumberTarget | src/COREMOD_arith/execute_arith.c:610-2070 | 3=a prints a and changes nothing: the number is a temporary, which is assigned to and deleted |
| ArithTargets.NumberNotSaved | src/COREMOD_arith/execute_arith.c:610-627 | no variable is created under the name of an image: a number whose temporary would have it is not saved |
| ArithTargets.NothingToAssign | src/COREMOD_arith/execute_arith.c:2045-2070 | a=sin passes the checks, deletes a and assigns nothing |
| ArithCommand.FunctionCommand | src/COREMOD_arith/execute_arith.c:330-2090 | the same from text to tables: such a command passes all three checks, then never ends or assigns to the name of the function |
| ArithNegation.NegationStep | src/COREMOD_arith/execute_arith.c:662-678 | the rule for (-x) replaces the word behind the group by a minus sign; the words are those with x in place of the group if and only if the group is last or stands before a minus sign |
| ArithNegation.NegatedLoop | src/COREMOD_arith/execute_arith.c:644-748 | for any operations and any words around one (-x): the loop ends as it does on the words with x in place of the group, a minus sign behind it, and the variable x negated in its table |
| ArithNegationCommand.NegatedVariable | src/COREMOD_arith/execute_arith.c:610-2088 | the same for the whole command when x is a variable: its value is negated wherever the command reads it, and it stays negated unless it is the target |
| ArithNegationCommand.NegatedNumber | src/COREMOD_arith/execute_arith.c:610-2088 | the same for the whole command when x is a number: only the temporary of that number is negated |
| ArithNegationCommand.NegatedAssignment | src/COREMOD_arith/execute_arith.c:610-2088 | name = e with one (-x), x a variable, last or before a minus sign: name gets the value of e with x negated throughout, x stays negated, nothing else changes |
| ArithNegationCommand.NegatedNumberAssignment | src/COREMOD_arith/execute_arith.c:610-2088 | name = e with one (-n), n a number, last or before a minus sign: name gets the value of e with that number negated, nothing else changes |
| ArithNegationCommand.NegatedThroughout | src/COREMOD_arith/execute_arith.c:662-669 | name = x+(-x) is computed as (-x)+(-x), and so for every operator |
| ArithNegationExact.NegationExact | src/COREMOD_arith/execute_arith.c:644-748 | for operations whose results can be weighed: the loop on an assignment or expression with one (-x) ends in the value the expression has with x negated if and only if the group is last or stands before a minus sign |
| ArithNegationExact.RecordsWeigh | src/COREMOD_arith/execute_arith.c:764-1109 | operations that record how their results were computed can be weighed |
| ArithNegationExact.LoopFollowed | src/COREMOD_arith/execute_arith.c:644-748 | on words that are no expression, too, the loop on words ends exactly when the loop on their values does, and then in words with those values |
| ArithWeights.TailExact | src/COREMOD_arith/execute_arith.c:644-748 | on values: replacing the word behind a value by a minus sign leaves the result of the loop what it was if and only if there was no such word or it was a minus sign |
| ArithWeights.LoopKeepsTotals | src/COREMOD_arith/execute_arith.c:644-748 | on every accepted word list the loop result has the weight and the minus signs of all the words |
| ArithWeights.BrokenStays | src/COREMOD_arith/execute_arith.c:644-748 | words with a parenthesis too few never reduce to one value that everything went into |
| ArithLexer.CleanCommand | src/COREMOD_arith/execute_arith.c:330-355 | the clean-up loop computes the cleaned command: no spaces, =- read as =0-, =+ read as = |
| ArithLexer.CleanHasNoSpaces | src/COREMOD_arith/execute_arith.c:330-355 | a cleaned command contains no space |
| ArithLexer.CleanIsUnspaced | src/COREMOD_arith/execute_arith.c:330-355 | where no sign follows = cleaning removes the spaces and nothing else |
| ArithLexer.CleanSign | src/COREMOD_arith/execute_arith.c:338-350 | before any text and behind any text =- is cleaned to =0- and =+ to = |
| ArithLexer.SeparatorIsWord | src/COREMOD_arith/execute_arith.c:362-439 | each of * / ^ ( ) = and the comma is a word of its own |
| ArithLexer.PutSeparator | src/COREMOD_arith/execute_arith.c:382-417 | a separator ends the word being read and becomes a word of its own |
| ArithLexer.SplitWords | src/COREMOD_arith/execute_arith.c:362-439 | the splitting loop over the word array stores exactly the words of the command and their number |
| ArithLexer.LexKeeps | src/COREMOD_arith/execute_arith.c:362-439 | the words concatenate back to the command |
| ArithLexer.SeparableSurvives | src/COREMOD_arith/execute_arith.c:362-439 | splitting the text of a separable word list gives the list back |
| ArithLexer.LexIsSeparable | src/COREMOD_arith/execute_arith.c:362-439 | every command without spaces splits into a separable list |
| ArithLexer.SplittingExact | src/COREMOD_arith/execute_arith.c:362-439 | a list of words without spaces survives being written down and split if and only if it is separable: separators and operands, no two operands in a row, no sign where an exponent would swallow it |
| ArithCommand.CheckSides | src/COREMOD_arith/execute_arith.c:523-560 | the check of both sides of = : no second =, operator or parenthesis left of it, nothing undefined right of it |
| ArithCommand.CheckPairs | src/COREMOD_arith/execute_arith.c:562-583 | the check of neighbouring words: no two operators in a row, ( only after =, (, an operator or a function |
| ArithCommand.CheckParentheses | src/COREMOD_arith/execute_arith.c:585-606 | the check that parentheses balance and never close too early |
| ArithCommand.ClassifyWords | src/COREMOD_arith/execute_arith.c:445-519 | the classification loop gives every word its type, the name before = being a target, and tells whether every word has a role that is modelled |
| ArithCommand.ClassifyKeepsText | src/COREMOD_arith/execute_arith.c:445-519 | a word that gets a role keeps its text, and each of the four operators is read as what it is |
| ArithCommand.ExecuteArith | src/COREMOD_arith/execute_arith.c:330-2090 | clean-up, splitting, classification, checks and the interpreter loop together compute the effect of the command on the tables, whatever stands left of =; a command with a word whose role is not modelled is reported as outside |
| ArithCommand.ExpressionPasses | src/COREMOD_arith/execute_arith.c:523-606 | the words of every well-formed expression over existing names pass all three checks |
| ArithCommand.ExpressionInLanguage | src/COREMOD_arith/execute_arith.c:445-519 | the words of every well-formed expression over existing names have roles that are modelled |
| ArithCommand.CommandCorrect | src/COREMOD_arith/execute_arith.c:330-2090 | from text to tables: a command `name = e` of at most 100 words, name being no function or other reserved word, with an operation in e and no spoiled depth is accepted, gives name the value of e, changes nothing else and leaves no temporary |
| ArithCommand.PrintCorrect | src/COREMOD_arith/execute_arith.c:330-2090 | from text to output: a command that is an expression without spoiled depth prints its value when that is a number, and leaves the tables as they were; an image is looked up as a variable in vain |
| ArithMachine.Machine.constructor | src/COREMOD_arith/execute_arith.c:293-310 | the word array holds the words of the command and the tables are those given |
| ArithMachine.Machine.ShiftLeft | src/COREMOD_arith/execute_arith.c:654-658 | the words after a removed stretch are moved down over it and the count drops by its width |
| ArithMachine.Machine.StripBraces | src/COREMOD_arith/execute_arith.c:648-660 | the brace-removal loop over the word array computes StripFrom |
| ArithMachine.Machine.NegateAt | src/COREMOD_arith/execute_arith.c:662-678 | one (-x) becomes x, the variable x is negated in its table, and three words go |
| ArithMachine.Machine.NegateAll | src/COREMOD_arith/execute_arith.c:662-678 | the loop over the words applies that rule wherever it applies |
| ArithMachine.Machine.GivePriorities | src/COREMOD_arith/execute_arith.c:680-718 | every operation gets its parenthesis level and its intrinsic priority |
| ArithMachine.Machine.Choose | src/COREMOD_arith/execute_arith.c:720-748 | the selection loop returns the operation the specification picks, or -1 |
| ArithMachine.Machine.ExecuteAt | src/COREMOD_arith/execute_arith.c:764-1126 | the operation is carried out on the tables and its words are replaced by the temporary |
| ArithMachine.Machine.ExecuteBinary | src/COREMOD_arith/execute_arith.c:764-1109 | an operator between two readable operands stores its result as a temporary; otherwise nothing is stored and the result names nothing |
| ArithMachine.Machine.ExecuteUnary | src/COREMOD_arith/execute_arith.c:1112-1595 | a function before a readable operand stores its result as a temporary; otherwise nothing is stored and the result names nothing |
| ArithMachine.Machine.PutBinary | src/COREMOD_arith/execute_arith.c:1102-1109 | the result takes the place of the left operand and two words go, also when no right operand is there |
| ArithMachine.Machine.PutUnary | src/COREMOD_arith/execute_arith.c:1585-1595 | the result takes the place of the function and one word goes, also when no argument is there |
| ArithMachine.Machine.Pass | src/COREMOD_arith/execute_arith.c:644-1595 | one pass of the main loop over the arrays |
| ArithMachine.Machine.CountToBeProcessed | src/COREMOD_arith/execute_arith.c:629-642 | the number of words after the last = |
| ArithMachine.Machine.Reduce | src/COREMOD_arith/execute_arith.c:644-2042 | the main loop: it ends with the specified state, or is reported to repeat itself |
| ArithMachine.Machine.SaveNumberAt | src/COREMOD_arith/execute_arith.c:612-627 | a number becomes a temporary variable |
| ArithMachine.Machine.SaveAllNumbers | src/COREMOD_arith/execute_arith.c:610-627 | all numbers become temporaries |
| ArithMachine.Machine.CleanUp | src/COREMOD_arith/execute_arith.c:2077-2088 | all temporaries of the command are deleted |
| ArithMachine.Machine.Conclude | src/COREMOD_arith/execute_arith.c:2045-2088 | the name before =, be it a name, a function word or a temporary, loses its old entry and gets that of the word behind =; without = the first word is printed; then the temporaries go |
| ArithMachine.Machine.Run | src/COREMOD_arith/execute_arith.c:610-2088 | the whole command on words and tables |
| ArithAssignment.AssignmentEffect | src/COREMOD_arith/execute_arith.c:2045-2088 | after `name = e` with an operation in e only name is added or changed, to the loop result, every other entry keeps its value and no temporary survives; a single word has the effect stated for it (renaming an image, reading a deleted variable); without a spoiled depth the result is the value of e |
| ArithAssignment.PrintEffect | src/COREMOD_arith/execute_arith.c:2072-2088 | a command without = prints the result when it is a number and leaves the tables as they were; an image is looked up as a variable in vain, unless a variable has its name |
| ArithAssignment.PassMeanings | src/COREMOD_arith/execute_arith.c:644-748 | a pass over words in the tables acts on their values exactly as the pass over values |
| ArithAssignment.LoopMeanings | src/COREMOD_arith/execute_arith.c:644-748 | so does the whole loop, and the tables only gain temporaries |
| ArithAssignment.StripMeanings | src/COREMOD_arith/execute_arith.c:648-660 | brace removal commutes with looking the words up |
| ArithAssignment.ExecuteMeanings | src/COREMOD_arith/execute_arith.c:764-1109 | executing the chosen operation on words is executing it on their values |
| ArithAssignment.NothingToNegate | src/COREMOD_arith/execute_arith.c:662-678 | in an expression without unary minus the (-x) rule never applies |
| ArithAssignment.SaveMeanings | src/COREMOD_arith/execute_arith.c:610-627 | saving numbers into temporaries changes no value |
| ArithAssignment.StoreTmp | src/COREMOD_arith/execute_arith.c:767-775 | a new temporary hides no entry and is read back as the value stored |
| ArithAssignment.CleanUpRestores | src/COREMOD_arith/execute_arith.c:2077-2088 | deleting the temporaries restores the tables the command started from |
| ArithAssignment.TmpNamesDistinct | src/COREMOD_arith/execute_arith.c:767-770 | the temporaries of a process have different names |
| UdpSender.SendFrame | src/COREMOD_memory/stream_UDP.c:383-403 | the send loop, which writes each header over the tail of the chunk already sent, emits exactly the specified datagrams and counts len + 2n bytes |
| UdpSender.DatagramSent | src/COREMOD_memory/stream_UDP.c:260-268 | a frame of len bytes goes out in len / 63488 + 1 datagrams; number k is 0x3E, the number as a char, and the bytes from 63488 k on, 63488 of them or what is left |
| UdpSender.SizesAdd | src/COREMOD_memory/stream_UDP.c:386-403 | the datagram sizes add up to the payload and two bytes each |
| UdpSender.AssembledPrefix | src/COREMOD_memory/stream_UDP.c:386-401 | the payloads of the first k datagrams are the first k chunks of the frame |
| UdpSender.SendLosesNothing | src/COREMOD_memory/stream_UDP.c:383-403 | the payloads of all n datagrams in order are the frame, for every length, also a multiple of the chunk size |
| UdpSender.NumberReadable | src/COREMOD_memory/stream_UDP.c:393-393 | the datagram number is read back from its signed byte if and only if it is below 128 |
| UdpReceiver.Receiver.constructor | src/COREMOD_memory/stream_UDP.c:785-818 | the receiver starts looking for a first datagram |
| UdpReceiver.Receiver.Recv | src/COREMOD_memory/stream_UDP.c:858-859 | a received datagram lies over the old contents of the datagram buffer, cut to the size asked for |
| UdpReceiver.Receiver.CopyChunk | src/COREMOD_memory/stream_UDP.c:945-945 | the payload replaces chunk k of the frame buffer and nothing else |
| UdpReceiver.Receiver.Publish | src/COREMOD_memory/stream_UDP.c:948-994 | the pixels behind the metadata go to the destination and the counter grows by one |
| UdpReceiver.Receiver.LookAt | src/COREMOD_memory/stream_UDP.c:856-875 | one datagram while waiting: a first datagram is found, or the wait goes on, or the 300th ends it |
| UdpReceiver.Receiver.Resync | src/COREMOD_memory/stream_UDP.c:848-877 | the waiting loop follows the step function |
| UdpReceiver.Receiver.CopyAccepted | src/COREMOD_memory/stream_UDP.c:927-945 | an accepted datagram fills its chunk |
| UdpReceiver.Receiver.ReceiveChunk | src/COREMOD_memory/stream_UDP.c:925-946 | the next datagram of a frame is accepted or aborts the frame |
| UdpReceiver.Receiver.ReceiveFirst | src/COREMOD_memory/stream_UDP.c:878-904 | a datagram that should begin a frame does, or the frame is aborted |
| UdpReceiver.Receiver.Assemble | src/COREMOD_memory/stream_UDP.c:924-947 | the rest of a frame: complete, broken off, or out of data |
| UdpReceiver.Receiver.Receive | src/COREMOD_memory/stream_UDP.c:821-1009 | the receive loop goes through exactly the states of the step function |
| UdpReceiver.Refused | src/COREMOD_memory/stream_UDP.c:856-944 | any datagram, from whatever source, without 0x3E in front or with another number than the one due is refused: the receiver starts over or waits on, up to the 300th, and frame, pixels and counter stay |
| UdpReceiver.Taken | src/COREMOD_memory/stream_UDP.c:893-994 | any datagram with the header due is taken: its bytes go to the place of its chunk, what a short one lacks is left from the one before, and the last chunk publishes the buffer and the pixels behind the metadata |
| UdpChannel.GivesUp | src/COREMOD_memory/stream_UDP.c:848-877 | the receiver gives up with the 300th datagram in a row, exactly, if the 299 before it are no first ones |
| UdpFrames.SentExactly | src/COREMOD_memory/stream_UDP.c:848-1009 | for at most 128 datagrams to a frame and frames that differ in every chunk, on a lossy channel that keeps the order: every published frame was sent if and only if in each completed assembly fewer datagrams were lost before a datagram with bytes in it than a frame has |
| UdpFrames.PublishedFramesWereSent | src/COREMOD_memory/stream_UDP.c:848-1009 | under that condition on completed assemblies, for any frames, the published frames are byte for byte sent frames with strictly increasing numbers, and pixels and counter show exactly them |
| UdpChannel.PublishedExactly | src/COREMOD_memory/stream_UDP.c:848-1009 | in every run, whatever is lost, the receiver has published exactly the completed assemblies, each the payloads of n datagrams delivered in a row and numbered from 0; the mode depends only on the numbers, and pixels and counter show the last assembly and their number |
| UdpFrames.AssemblyIsMixture | src/COREMOD_memory/stream_UDP.c:938-945 | chunk k of a completed assembly is chunk k of the frame its k-th datagram is from |
| UdpFrames.AssemblySent | src/COREMOD_memory/stream_UDP.c:938-945 | a completed assembly is one of the sent frames if and only if nothing tears it |
| UdpFrames.SplitAssembly | src/COREMOD_memory/stream_UDP.c:938-945 | an assembly whose first k datagrams are of one frame and the others of another is the head of the one and the tail of the other |
| UdpFrames.AssembliesApart | src/COREMOD_memory/stream_UDP.c:893-946 | completed assemblies do not overlap, and a later one begins with a later frame |
| UdpChannel.TraceTracks | src/COREMOD_memory/stream_UDP.c:848-1009 | the invariant of every run: the frame buffer holds the payloads accepted so far |
| UdpChannel.StepTracks | src/COREMOD_memory/stream_UDP.c:848-947 | every step keeps that invariant |
| UdpFrames.SameFrame | src/COREMOD_memory/stream_UDP.c:938-944 | two datagrams with consecutive numbers are of one frame if and only if fewer than n are lost between them |
| UdpChannel.EndsRow | src/COREMOD_memory/stream_UDP.c:893-946 | a frame is completed by n deliveries in a row, numbered from 0 |
| UdpChannel.LoopIsAfter | src/COREMOD_memory/stream_UDP.c:821-1009 | the receive loop fed with the delivered datagrams is the channel model |
| UdpFrames.WholeFrameGetsThrough | src/COREMOD_memory/stream_UDP.c:893-952 | in every run a frame that arrives whole is published if and only if the receiver accepts its first datagram where it comes |
| UdpFrames.LargeFramesNeverPublish | src/COREMOD_memory/stream_UDP.c:938-944 | with more than 128 datagrams to a frame no step publishes anything, whatever arrives |
| UdpFrames.NothingPublished | src/COREMOD_memory/stream_UDP.c:938-944 | so nothing is published in any run |
| UdpFrames.TornFrame | src/COREMOD_memory/stream_UDP.c:938-945 | the condition is needed for every number n of datagrams to a frame and every place k: with n datagrams lost there, the head of one frame and the tail of the next are published as one |
| Bytes.DecodeEncode | src/COREMOD_memory/stream_TCP.c:22-26 | a 64-bit word survives being laid out in bytes and read back |
| Bytes.CharOf | src/COREMOD_memory/stream_UDP.c:393-393 | storing a number in a char keeps it modulo 256 |
| TcpStream.ChooseSlice | src/COREMOD_memory/stream_TCP.c:508-524 | the statements that choose a slice compute the slice due |
| TcpStream.SliceInRange | src/COREMOD_memory/stream_TCP.c:508-524 | the slice sent exists if and only if the counter is not negative as an int, or the last slice was sent last and a wrap is due |
| TcpStream.SendsWrittenExactly | src/COREMOD_memory/stream_TCP.c:510-524 | slice cnt1, which was written last, is the one sent if and only if it is at most one ahead of the slice sent before, or, after the last of several slices, if and only if it is slice 0 |
| TcpStream.FollowsWriter | src/COREMOD_memory/stream_TCP.c:510-524 | a writer that goes on by one slice between two sends, round all slices, is followed slice by slice |
| TcpStream.IntOf | src/COREMOD_memory/stream_TCP.c:510-510 | a counter stored in an int keeps its value modulo 2 to the 32, and is itself when it fits |
| TcpStream.LaggingSenderSkipsNothing | src/COREMOD_memory/stream_TCP.c:508-524 | a sender that always finds the writer ahead goes round all slices in turn |
| TcpStream.Sender.constructor | src/COREMOD_memory/stream_TCP.c:405-428 | nothing has been sent and slice 0 counts as the last |
| TcpStream.Sender.CopyIn | src/COREMOD_memory/stream_TCP.c:532-539 | a stretch of bytes is appended to the transfer buffer |
| TcpStream.Sender.Metadata | src/COREMOD_memory/stream_TCP.c:505-533 | the metadata is the two counters in memory order |
| TcpStream.Sender.Fill | src/COREMOD_memory/stream_TCP.c:528-539 | the transfer buffer is the record of the slice: pixels, counters, keywords |
| TcpStream.Sender.Transmit | src/COREMOD_memory/stream_TCP.c:505-541 | a record for the slice due goes on the wire, with the pixels of that slice: cnt1 itself when it is at most one ahead, the next slice when it is further ahead, slice 0 after the last; the slice exists |
| TcpReplica.Receiver.constructor | src/COREMOD_memory/stream_TCP.c:940-962 | buffers of the sizes of a record and of the image |
| TcpReplica.Receiver.Flush | src/COREMOD_memory/stream_TCP.c:976-995 | for any arrival chunking the flush discards exactly the records it finds whole, one after the other, and the one that a short read has begun, or all of a stream that ends |
| TcpReplica.Receiver.Copy | src/COREMOD_memory/stream_TCP.c:1045-1059 | n bytes are copied and the rest stays |
| TcpReplica.Receiver.Recv | src/COREMOD_memory/stream_TCP.c:1017-1017 | what arrives lies over the old contents of the buffer |
| TcpReplica.Receiver.ReadSlice | src/COREMOD_memory/stream_TCP.c:1040-1048 | the slice number is read back from the record |
| TcpReplica.Receiver.CopyPixels | src/COREMOD_memory/stream_TCP.c:1044-1052 | the pixels replace those of the slice that exists, and it is noted when they go outside the image |
| TcpReplica.Receiver.CopyKeywords | src/COREMOD_memory/stream_TCP.c:1054-1060 | the keywords are copied |
| TcpReplica.Receiver.ReceiveOne | src/COREMOD_memory/stream_TCP.c:1017-1093 | one receive updates replica, keywords and counters as specified |
| TcpReplica.Receiver.Receive | src/COREMOD_memory/stream_TCP.c:997-1098 | the receive loop plays the rest of the stream |
| TcpReplica.Receiver.Replicate | src/COREMOD_memory/stream_TCP.c:976-1098 | flush and loop on a stream of whole records: exactly the records the flush finds are dropped, every slice of the replica shows the last of the others sent for it, and nothing is written outside the image |
| TcpReplica.ReplicaShowsLastSent | src/COREMOD_memory/stream_TCP.c:1017-1060 | every slice of the replica equals the last snapshot sent of it, and is as before if none was |
| TcpReplica.LastOfIsLast | src/COREMOD_memory/stream_TCP.c:1044-1052 | the frame shown is the greatest index sent for the slice |
| TcpReplica.ApplyRecord | src/COREMOD_memory/stream_TCP.c:1036-1060 | a whole record changes exactly its slice, to its pixels |
| TcpReplica.AnyRecord | src/COREMOD_memory/stream_TCP.c:1036-1060 | any record of full length, whatever number it carries: with one slice its pixels are the image; with several they go to the slice of that number, or outside the image |
| TcpReplica.LongOf | src/COREMOD_memory/stream_TCP.c:1040-1040 | the 64-bit number in a record is read as the signed number congruent to it |
| TcpReplica.RecordAt | src/COREMOD_memory/stream_TCP.c:1017-1017 | full-length reads from a record boundary give exactly the records sent |
| TcpReplica.FlushedToBoundary | src/COREMOD_memory/stream_TCP.c:976-995 | whatever the flush dropped, the loop starts at a record boundary |
| TcpTorn.TornStream | src/COREMOD_memory/stream_TCP.c:1017-1060 | a stream of whole records that breaks off t bytes into one more: every slice shows the last snapshot sent for it and nothing is written outside the image if and only if the break is harmless, which is spelled out for a break in the pixels or the first counter, in the slice number, and after it |
| TcpTorn.BreakWritesOutside | src/COREMOD_memory/stream_TCP.c:1040-1052 | 300 slices, a break one byte into the number of slice 255 behind a record of slice 256: the number read is 511, and the break is not harmless |
| TcpTorn.TornRecord | src/COREMOD_memory/stream_TCP.c:1017-1052 | what arrives of the broken record changes exactly the slice whose number is read from the mixed bytes, to the mixed pixels; it is written outside the image exactly when there is no such slice |
| TcpTorn.TornRest | src/COREMOD_memory/stream_TCP.c:1017-1060 | what arrives of the broken record counts as one more frame, with the mixed slice number and the mixed keywords |
| TcpTorn.SeenInBuffer | src/COREMOD_memory/stream_TCP.c:1017-1048 | the transfer buffer then shows the pixels that arrived over the old ones, and a slice number mixed byte by byte |
| TcpTorn.DecodeMixed | src/COREMOD_memory/stream_TCP.c:1040-1048 | a number of which the j low bytes have arrived is read as those bytes and the old high ones |
| TcpTorn.LateBreakHarmless | src/COREMOD_memory/stream_TCP.c:1017-1052 | a break is harmless once four bytes of the slice number have arrived |
| TcpTorn.PlayedWithRest | src/COREMOD_memory/stream_TCP.c:1017-1017 | receiving whole records and a rest comes down to receiving the rest |
| LoggerModel.TimingIndex | src/COREMOD_memory/logshmim.c:808-812 | the timing entry of a frame is frameindex + buffindex * cubesize and lies in the half of its buffer |
| LoggerModel.StepStaysValid | src/COREMOD_memory/logshmim.c:884-904 | at every loop head frameindex is below cubesize |
| LoggerSafety.NoFrameIsLost | src/COREMOD_memory/logshmim.c:703-1091 | in every run, with any frames, timeouts and toggles, the cubes handed to writers followed by the current buffer up to frameindex are exactly the frames logged |
| LoggerSafety.CopyConserves | src/COREMOD_memory/logshmim.c:808-886 | logging a frame keeps that conservation |
| LoggerSafety.FlushConserves | src/COREMOD_memory/logshmim.c:925-1098 | a flush keeps it |
| LoggerSafety.AtMostOneWriter | src/COREMOD_memory/logshmim.c:1012-1061 | in every run at most the writer launched last is outstanding, every job names a buffer, the matching half of the timing arrays and a size of 1 to cubesize, and the parity of the empty cubes since tells whether its buffer is current |
| LoggerSafety.OverwritesExactly | src/COREMOD_memory/logshmim.c:840-872 | a frame is copied into the buffer that the outstanding writer is saving exactly when it is logged after an odd number of empty cubes |
| LoggerSafety.WritersSeeTheirFrames | src/COREMOD_memory/logshmim.c:808-872 | in every run without such a copy the outstanding writer finds in its buffer and timing half exactly the frames handed to it |
| LoggerSafety.NoEmptyCubeNoOverwrite | src/COREMOD_memory/logshmim.c:925-927 | in particular in every run in which no empty cube is flushed |
| LoggerSafety.RegionWrite | src/COREMOD_memory/logshmim.c:808-872 | a logged frame changes its own entry of its own buffer and no other |
| LoggerSteps.FrameLogged | src/COREMOD_memory/logshmim.c:703-886 | in any run the next event adds to the frames logged exactly the frame that has arrived while saving is on and below the limit: of a rolling buffer the plane that cnt1 names, of a single image that image, with the counters and times of the source |
| LoggerSteps.FrameStored | src/COREMOD_memory/logshmim.c:808-872 | that frame goes to the next cell of the current buffer and of its half of the timing arrays, and no other cell changes |
| LoggerSteps.HandedOver | src/COREMOD_memory/logshmim.c:897-1061 | a cube is handed to a writer exactly when it is not empty and it is full, or saving has gone off, or it was asked for, or nothing came; it is the current buffer with the frame of the event |
| LoggerSteps.CountersAfter | src/COREMOD_memory/logshmim.c:703-1107 | what the counters are after any iteration: the buffers change roles and the file count grows exactly when a cube is due |
| LoggerSteps.FlagsAfter | src/COREMOD_memory/logshmim.c:727-1110 | saving stops exactly when the limit on frames is reached or the last cube, or one asked for as the last, has ended |
| LoggerSteps.AskedFor | src/COREMOD_memory/logshmim.c:897-927 | a cube asked for is handed over in the next iteration unless it is empty, and if asked for as the last one ends the saving |
| LoggerLimits.LimitsHold | src/COREMOD_memory/logshmim.c:727-749 | with fixed limits framecnt never exceeds maxframecnt and, from a reset of the counters until saving stops, at most maxfilecnt >= 1 files are launched |
| LoggerLimits.NothingWaitsWhileOff | src/COREMOD_memory/logshmim.c:906-910 | while saving was off at the end of the last iteration the current cube is empty, and every step keeps that |
| LoggerLimits.EmptyCubeBreaksFile | src/COREMOD_memory/logshmim.c:925-927 | a run in which two timeouts in a row let the next frame into the buffer being saved |
| LoggerResets.NoticedAtOnceOrNever | src/COREMOD_memory/logshmim.c:703-733 | saving was off and is on when the next iteration comes: while it stays on, the counters are reset exactly once if that iteration finds a new frame, and not at all, however long, if it does not |
| LoggerResets.StepResets | src/COREMOD_memory/logshmim.c:727-733 | the counters are reset exactly in an iteration that finds a new frame with saving on after it was off at the end of the iteration before; otherwise they do not go down |
| LoggerResets.NothingLoggedBeforeReset | src/COREMOD_memory/logshmim.c:727-740 | with the limit on frames reached nothing is logged in any run until the counters are reset |
| LoggerMachine.StreamLog.constructor | src/COREMOD_memory/logshmim.c:653-684 | the loop starts with empty counters and the last flag equal to the current one |
| LoggerMachine.StreamLog.StartCounting | src/COREMOD_memory/logshmim.c:727-733 | saving just turned on starts the counters again |
| LoggerMachine.StreamLog.CheckLimits | src/COREMOD_memory/logshmim.c:737-749 | the frame limit turns saving off, the file limit marks the last cube |
| LoggerMachine.StreamLog.CopyFrame | src/COREMOD_memory/logshmim.c:756-886 | the frame and its times go to the current buffer and its half of the timing arrays, and the counters grow |
| LoggerMachine.StreamLog.LookAt | src/COREMOD_memory/logshmim.c:703-895 | a new frame is one whose counter differs from the last |
| LoggerMachine.StreamLog.SaveBuffer | src/COREMOD_memory/logshmim.c:951-1056 | the message names buffer, timing half and size; the previous writer is joined and the next launched |
| LoggerMachine.StreamLog.EndCube | src/COREMOD_memory/logshmim.c:925-1073 | a cube that is not empty is handed to a writer |
| LoggerMachine.StreamLog.TurnBuffers | src/COREMOD_memory/logshmim.c:1088-1107 | the counters advance, the buffers change roles, the last cube ends the saving |
| LoggerMachine.StreamLog.CubeDue | src/COREMOD_memory/logshmim.c:897-923 | a cube is due when full, when saving was turned off, on request, or after a timeout |
| LoggerMachine.StreamLog.EndIteration | src/COREMOD_memory/logshmim.c:897-1110 | the end of an iteration |
| LoggerMachine.StreamLog.Iterate | src/COREMOD_memory/logshmim.c:684-1110 | one iteration after a trigger |
| LoggerMachine.StreamLog.IterateTimedOut | src/COREMOD_memory/logshmim.c:692-1110 | one iteration after a timeout |
| LoggerMachine.StreamLog.Operate | src/COREMOD_memory/logshmim.c:684-1113 | the loop over any sequence of events goes through the states of the model |
| Cubes.FlatInjective | src/COREMOD_arith/imfunctions.c:1339-1342 | the row-major place of a pixel determines the pixel |
| Cubes.FlatOnto | src/COREMOD_arith/imfunctions.c:1339-1342 | every place of the buffer is the place of a pixel |
| Unfold.CountRows | src/COREMOD_arith/image_unfold.c:167-178 | the counting loop gives 1 + Z div c rows of planes |
| Unfold.UnfoldImage | src/COREMOD_arith/image_unfold.c:163-246 | the running-index copy puts every pixel in its place and leaves the rest blank |
| Unfold.RunningIndex | src/COREMOD_arith/image_unfold.c:208-218 | the running indices ii and jj give place (x + X (z mod c), y + Y (z div c)) |
| Unfold.PlaceInside | src/COREMOD_arith/image_unfold.c:163-191 | that place is inside the allocated X c by Y (1 + Z div c) output |
| Unfold.PlaceInjective | src/COREMOD_arith/image_unfold.c:201-246 | no two pixels share a place |
| Unfold.PixelInPlace | src/COREMOD_arith/image_unfold.c:201-246 | pixel (x, y, z) of the input is at column x + X (z mod c) and row y + Y (z div c) of an output of width X c |
| Unfold.UnfoldingLosesNothing | src/COREMOD_arith/image_unfold.c:201-246 | the output determines the input |
| Unfold.LastRowBlank | src/COREMOD_arith/image_unfold.c:167-186 | when c divides Z the last row of planes stays blank |
| MergeCrop.CountAxes | src/COREMOD_arith/image_merge3D.c:130-138 | the number of axes of the output |
| MergeCrop.CopyBlock | src/COREMOD_arith/image_merge3D.c:356-357 | a block is copied and what lies before it stays |
| MergeCrop.CopyPair | src/COREMOD_arith/image_merge3D.c:356-364 | one block of each input |
| MergeCrop.AppendImage | src/COREMOD_arith/image_merge3D.c:193-202 | the bulk branch puts one image behind the other |
| MergeCrop.InterleaveBlocks | src/COREMOD_arith/image_merge3D.c:353-366 | the interleaving loop writes block after block of each input in turn until the output is full |
| MergeCrop.Merge | src/COREMOD_arith/image_merge3D.c:113-366 | both branches give the pointwise concatenation along the axis |
| MergeCrop.InterleavedIsMerge | src/COREMOD_arith/image_merge3D.c:211-366 | interleaved blocks are the concatenation along the axis |
| MergeCrop.MergedPixel | src/COREMOD_arith/image_merge3D.c:113-366 | a pixel of the merged image is one of the first image, or beyond its end one of the second |
| MergeCrop.Crop | src/COREMOD_arith/image_crop.c:165-225 | the clipped loops cut the box out; pixels outside the image stay blank |
| MergeCrop.CroppedPixel | src/COREMOD_arith/image_crop.c:165-225 | a pixel of the box is the pixel of the image at the corner plus its own coordinates, or blank when that is outside |
| MergeCrop.CropPlane | src/COREMOD_arith/image_crop.c:473-482 | one plane of the box |
| MergeCrop.CropColumn | src/COREMOD_arith/image_crop.c:473-482 | one column of the box |
| MergeCrop.CropAtSeam | src/COREMOD_arith/image_crop.c:468-483 | cropping a merged image at the seam returns each input exactly, along any axis |
| MergeCrop.MergeOfParts | src/COREMOD_arith/image_merge3D.c:113-208 | an image cut in two along an axis and merged again is the image |
| Broadcast.CheckAxis | src/COREMOD_arith/imfunctions.c:1255-1311 | an axis is fine when the sizes agree or one of them is 1, and gives the two expansion factors and the output size |
| Broadcast.MapPixels | src/COREMOD_arith/imfunctions.c:1350-1383 | the mapping table holds, for every output pixel, the input pixel with stretched axes held at 0 |
| Broadcast.Evaluate | src/COREMOD_arith/imfunctions.c:1514-1523 | the function is applied to the mapped pixels |
| Broadcast.Operate | src/COREMOD_arith/imfunctions.c:1226-1523 | succeeds if and only if all axes go together, names the first failing axis otherwise, and then computes out(i,j,k) = f(in1, in2) with size-1 axes held at 0 |
| Broadcast.SourceInside | src/COREMOD_arith/imfunctions.c:1350-1383 | every mapped index is within its input |
| Broadcast.BroadcastPixel | src/COREMOD_arith/imfunctions.c:1255-1523 | pixel (i, j, k) of the output is f of the pixels of the inputs with the same coordinates, held at 0 along the axes where an input has a single pixel; an axis is as long as the longer of the two |
| Broadcast.BroadcastIsStretching | src/COREMOD_arith/imfunctions.c:1255-1523 | the result equals stretching both images to the output shape and combining them pixel by pixel |
| Remap.CountPixels | src/COREMOD_arith/image_pixremap.c:110-121 | the first pass counts the pixels in range |
| Remap.FillTables | src/COREMOD_arith/image_pixremap.c:125-140 | the second pass lists them with their source |
| Remap.Gather | src/COREMOD_arith/image_pixremap.c:153-156 | the gather loop copies along the tables |
| Remap.PixRemap | src/COREMOD_arith/image_pixremap.c:110-156 | every pixel in range shows the vector element it names, the others keep theirs |
| Remap.CountZonesOf | src/COREMOD_arith/image_pixunmap.c:93-103 | the number of zones is one more than the largest map value |
| Remap.FillZones | src/COREMOD_arith/image_pixunmap.c:164-186 | the tables list the pixels in a zone, and the counters hold the zone sizes |
| Remap.TablesFit | src/COREMOD_arith/image_pixunmap.c:151-186 | the tables, sized in the first pass by the image size, are long enough if and only if no map value reaches the image size |
| Remap.Accumulate | src/COREMOD_arith/image_pixunmap.c:209-212 | every listed pixel is added to its zone |
| Remap.AvoidZero | src/COREMOD_arith/image_pixunmap.c:188-195 | an empty zone is divided by 1 |
| Remap.DivideAll | src/COREMOD_arith/image_pixunmap.c:213-216 | every sum is divided by its count |
| Remap.PixUnmap | src/COREMOD_arith/image_pixunmap.c:93-217 | one iteration: what was there plus the zone sum, divided by the zone size |
| Remap.UnmapAfterRemap | src/COREMOD_arith/image_pixunmap.c:206-217 | unmap after remap gives v[z] for zones that occur and 0 for others, so it is the identity if and only if v is 0 on zones that do not occur |
| Remap.UnmapInvertsRemap | src/COREMOD_arith/image_pixunmap.c:206-217 | when every zone occurs unmap after remap is the identity |
| Remap.UnmapConserves | src/COREMOD_arith/image_pixunmap.c:206-217 | count times mean, added over the zones, is the sum over the pixels that have a zone |
| Remap.PixelMovesItsZone | src/COREMOD_arith/image_pixunmap.c:206-217 | making one pixel brighter by d adds d divided by the number of pixels of its zone to the element of that zone and changes no other |
| Remap.BlackImage | src/COREMOD_arith/image_pixunmap.c:188-217 | a black zone leaves the element that was there divided by the number of its pixels, and an empty zone leaves it as it was |
| Remap.ZonesReached | src/COREMOD_arith/image_pixunmap.c:93-103 | the last zone counted occurs, unless no map value is positive |
| SliceNormalize.ReadPixel | src/COREMOD_arith/image_slicenormalize.c:213-272 | the mask pixel and the masked value squared, the mask held at 0 along the slice axis |
| SliceNormalize.AddPixel | src/COREMOD_arith/image_slicenormalize.c:272-274 | one pixel is added to the sums of its slice |
| SliceNormalize.Accumulate | src/COREMOD_arith/image_slicenormalize.c:213-277 | the triple loop adds up energy and mask weight of every slice |
| SliceNormalize.MakeNorms | src/COREMOD_arith/image_slicenormalize.c:280-298 | the norm of a slice from its sums, with or without RMS mode |
| SliceNormalize.Scale | src/COREMOD_arith/image_slicenormalize.c:302-366 | every pixel is divided by the norm of its slice |
| SliceNormalize.Normalize | src/COREMOD_arith/image_slicenormalize.c:105-366 | the three loops together |
| SliceNormalize.NormalizedEnergy | src/COREMOD_arith/image_slicenormalize.c:273-366 | a slice with positive masked energy and mask weight has masked sum of squares 1 afterwards, or the mask weight in RMS mode, for any slice axis |
| SliceNormalize.NormalizedTwice | src/COREMOD_arith/image_slicenormalize.c:273-366 | normalising such a slice again changes nothing |
| SliceSums.SliceNormalized | src/COREMOD_arith/image_slicenormalize.c:213-366 | the same with the sums written out pixel by pixel, the mask pixel having coordinate 0 along the slice axis: every pixel of the slice is divided by one positive number, and the masked sum of squares is then 1, or the sum of the mask in RMS mode |
| SliceSums.EnergyIsTotal | src/COREMOD_arith/image_slicenormalize.c:213-277 | the sums of the triple loop are, for each slice and axis, the sums over the two other coordinates |
| SliceSums.EmptySlice | src/COREMOD_arith/image_slicenormalize.c:280-366 | a slice without energy under the mask is divided by zero |
| Decimals.PaddedInjective | src/COREMOD_iofits/images2cube.c:107-107 | zero-padded frame numbers are told apart, also beyond five digits |
| Decimals.PaddedWidth | src/COREMOD_iofits/images2cube.c:107-107 | a frame number takes five characters exactly below 100000, and as many as it has digits above |
| FrameCube.NamesAgree | src/COREMOD_iofits/breakcube.c:72-80 | the names made by "%s_%5u" with blanks replaced and by "%s%05ld" behind name_ agree if and only if the name has no blank |
| FrameCube.BrokenNameInjective | src/COREMOD_iofits/breakcube.c:72-80 | different frames get different names |
| FrameCube.PlaceFrame | src/COREMOD_iofits/images2cube.c:97-103 | a frame is copied into its plane and the other planes stay |
| FrameCube.ImageStore.NameFrame | src/COREMOD_iofits/breakcube.c:72-80 | the name patched in place |
| FrameCube.ImageStore.TakePlane | src/COREMOD_iofits/breakcube.c:82-88 | the new image is plane kk of the cube |
| FrameCube.ImageStore.Break | src/COREMOD_iofits/breakcube.c:57-92 | every plane becomes an image under its frame name and no other name changes |
| FrameCube.ImageStore.AddFrame | src/COREMOD_iofits/images2cube.c:105-134 | a frame is placed, skipped when missing, refused when it has another size |
| FrameCube.ImageStore.Assemble | src/COREMOD_iofits/images2cube.c:62-139 | gives a cube if and only if the first frame exists and no later one has another size; its planes are the frames, zeros for missing ones |
| FrameCube.AssembledPixel | src/COREMOD_iofits/images2cube.c:97-134 | plane k of an assembled cube is the image named by the prefix and k in five digits, or zeros when there is none |
| FrameCube.AssembledIsBroken | src/COREMOD_iofits/images2cube.c:62-139 | frames broken out of a cube and assembled with the prefix name_ are the cube, for every name without a blank |
| FrameCube.BreakAndAssemble | src/COREMOD_iofits/breakcube.c:57-92 | breaking and assembling through the image table returns the cube |
| NameTable.LookupCorrect | src/COREMOD_memory/image_ID.c:17-43 | in a table without duplicates and with its last slot free lookup returns the live slot of the name |
| NameTable.NameTables.constructor | src/COREMOD_memory/image_ID.c:91-119 | no slot is in use |
| NameTable.NameTables.Find | src/COREMOD_memory/image_ID.c:17-43 | the lookup loop, which cannot report the last slot |
| NameTable.NameTables.NextImage | src/COREMOD_memory/image_ID.c:91-119 | the preferred slot if it is free, else the first free one |
| NameTable.NameTables.NextVariable | src/COREMOD_memory/variable_ID.c:40-62 | the first free variable slot |
| NameTable.NameTables.MakeImage | src/COREMOD_memory/create_image.c:40-91 | an image of the name is reused in its slot exactly if it has the same type and sizes; an unused name gets a slot exactly if one is free, the preferred one if that is |
| NameTable.NameTables.RemoveImage | src/COREMOD_memory/delete_image.c:278-295 | the slot of the name becomes free |
| NameTable.NameTables.ChangeName | src/COREMOD_memory/image_copy.c:251-278 | an existing image takes the new name if neither an image nor a variable has it |
| NameTable.NameTables.SetVariable | src/COREMOD_memory/create_variable.c:11-53 | the variable is changed in its slot or created in the first free one, and refused exactly when an image has the name |
| NameTable.NameTables.RemoveVariable | src/COREMOD_memory/delete_variable.c:8-17 | the slot of the variable becomes free |
| NameTable.StepGood | src/COREMOD_memory/create_image.c:40-91 | every command that leaves the last slot free keeps the names of live slots different |
| NameTable.NamesStayUnique | src/COREMOD_memory/image_ID.c:91-119 | in every run of such commands from empty tables no two live images and no two live variables share a name |
| NameTable.StepKeepsSlot | src/COREMOD_memory/delete_image.c:138-139 | a command other than its deletion leaves a live image in its slot with its content, and renames it only as asked |
| NameTable.SlotIsStable | src/COREMOD_memory/delete_image.c:278-295 | a live image keeps its slot and content over a run until it is deleted, and lookup returns that slot for its name |
| NameTable.TablesAreMaps | src/COREMOD_memory/image_copy.c:258-264 | seen as maps from names to contents, creation puts, deletion removes and renaming moves an entry, and nothing else changes |
| NameTable.LastSlotIsLost | src/COREMOD_memory/image_ID.c:37-41 | an image that gets the last slot cannot be looked up, and creating it again finds no slot |
| NameTable.SharedName | src/COREMOD_memory/create_image.c:59-72 | an image and a variable come to share a name only by creating an image with the name of a variable |

## Left out

- `^`, functions of several arguments and functions defined only for images: a command with one of these words, or with a comma, is outside the model (`ArithCommand.RESERVED`). `^` never gets a priority in the source (src/COREMOD_arith/execute_arith.c:704-716).
- Several groups `(-x)` in one command: the rule is modelled for all of them, but the theorems on its values are about one group.
- ArithTextCommand.TypedAssignment: for expressions without `(-x)` and in order, as its condition says; `ArithExact` and `ArithNegationExact` say what happens otherwise.
- ArithCommand.ExecuteArith: requires at most 100 words, the size of the word array; the length limits of words and of the command buffer are not modelled.
- An empty command, a pass without an operation, an operator in front of all words, and a read of an entry that does not exist: the source indexes arrays at -1 there; the model reports a fault or does nothing.
- ArithMachine.Machine.NegateAll: a negated word that names no variable changes nothing, where the source writes at index -1 of the table.
- ArithExamples.DoubledGroupNeverEnds: which expressions with doubled groups are reduced all the same is not characterised.
- The fall-through tests after the operator block (src/COREMOD_arith/execute_arith.c:1112, 1597): after an operation of an accepted word list the word in question is neither kind of function.
- What the operations compute on numbers and images, and the reading of numbers: parameters of the model. The interpreter's tables are maps; `NameTable.TablesAreMaps` shows that the slot tables behave as such.
- UDP: the metadata handshake, keywords, `cnt1` and more than one slice. Datagrams purged before a resynchronisation count as lost.
- UdpReceiver.Receiver.Publish: keywords and `cnt1` are not copied.
- UdpSender.SendFrame: the buffer has the two bytes for the first header that the source comments announce but does not allocate (src/COREMOD_memory/stream_UDP.c:264-266).
- TCP: errors of `send` and `recv`, and keywords of a reused image that has more of them than the sender.
- TcpStream.Sender.Transmit: requires that the slice due exists, which is exactly the condition of `TcpStream.SliceInRange`; otherwise the source reads outside the image.
- TcpTorn.TornStream: requires a whole record before the break; before that the transfer buffer is uninitialised memory.
- TcpReplica.Receiver.CopyPixels: a write outside the image is noted in `outside`, and what it overwrites is not modelled.
- The logger: file names, keywords, compression and the FITS writer. The thread message is taken as it is at the launch, although the source refills it before joining the previous writer (src/COREMOD_memory/logshmim.c:961-1049). A frame is one cell of a buffer.
- LoggerMachine.StreamLog.SaveBuffer: the message to the writer is not shared memory but a snapshot, as said above.
- LoggerLimits.LimitsHold: the limits are fixed during the run; the source allows them to be changed.
- Unfold.UnfoldImage: unfolds axis 2 into axis 0 only; the other choices of axes are not modelled.
- The copies of each loop for other element types. The integer cases of the bulk branch of merge pass the address of the array pointer (src/COREMOD_arith/image_merge3D.c:150-191), and inputs of the two-image operator that are not double are converted through the wrong table (src/COREMOD_arith/imfunctions.c:1400-1402).
- MergeCrop.Crop: the loops for one and two axes are the one for three axes with a single pixel along the others.
- MergeCrop.Merge: requires the other axes to agree, which the source does not check.
- Outputs that exist already: every transform writes into a new image. `Remap.PixRemap` and `Remap.PixUnmap` take the old contents, since later iterations of the source keep them.
- Rounding: pixel values and times are real numbers.
- SliceNormalize.Normalize: without the slice average, which is not used, and the auxiliary image.
- Remap.PixUnmap: requires map values below the image size; `Remap.TablesFit` shows that the source needs this.
- FrameCube.ImageStore.Break: requires that an image that already has a frame name has the size of a frame; the source would go on with an unset slot. The assembled cube is returned, not put under a name.
- FrameCube.BreakAndAssemble: requires a name without a blank, since `FrameCube.NamesAgree` shows that the frames are not found otherwise, and what `FrameCube.ImageStore.Break` requires.
- NameTable.NameTables.MakeImage: reports that no slot is left, where the source ends the program.
- NameTable.NameTables.SetVariable: changes nothing when the table is full, where the source writes behind it.
- NameTable.NameTables.ChangeName: requires the image to exist; the source would write before the table.
- Memory, semaphores and files behind an image; the length limit of names; the pixels of an image in `NameTable`.
- Sockets, signals, priorities, process information, the command line and the remaining modules of the program.
