# SHUDIAN statement interpreter in Dafny

SHUDIAN is a small language for boolean circuits. A program is a flat stream
of whitespace-separated tokens. A `;` token ends each statement. The
interpreter keeps two pools:

- the **variable pool** maps names to shared boolean cells;
- the **logic pool** maps names to truth tables. Each table holds the input
  cells it captured and a set of minterms.

This project models the interpreter's core:

- **the statement splitter**: one statement per `;`;
- **the dispatcher**: `input`, `print`, the too-short-statement warning,
  `x and|or|not ...`, `x set ...`, `x min ...`, and two-token assignment;
- **the bracket grouping**: GetLogicWords;
- **the recursive boolean evaluator**: LogicProcessing;
- **the minterm engine**: Logic::isValueInMins;
- **the helpers** isValidCppIdentifier and convertToBool;
- **the run loop**: one statement per step, with the line counter going up by one each time.

The model has these modules:

- `Identifiers`: the identifier check and the string-to-bool conversion.
- `Grouping`: `[ ... ]` spans as words. It defines balance, the word shapes,
  and the depth-counter scan.
- `Minterms`: the MSB-first packing of input bits, its decoding, and table
  evaluation.
- `Pools`: the interpreter state, as explained below.
- `Evaluator`: LogicProcessing as mutually recursive functions over words,
  plus a reference fold over all operands.
- `Statements`: the dispatcher, one function per statement kind.
- `StatementProperties`: what each statement kind does to the pools.
- `Interpreter`: the splitter and the run loop.
- `Scripts`: how the run loop unfolds, and small whole programs.

How the state is modelled:

- Every `std::shared_ptr<bool>` becomes an index into an arena of cells.
  Every write in the source makes a new cell, so the arena only grows and no
  cell ever changes value.
- A variable pool entry is a cell index. A logic pool entry is a list of cell
  indices plus a set of minterms. This keeps the aliasing of `b a` and the
  cell capture of `set` exact.
- Console input is a list of words. At the end of the input the word read is
  empty, and so reads as false.
- An error ends the statement with the error kind and line. It carries the
  state and the printed lines as they were when it was raised. So names read
  by `input` before an invalid one stay bound, and names printed before an
  unknown one stay printed.
- Warnings and printed lines are events.

`Statements.Defined` is the precondition of `Execute`. It excludes two kinds of
statement. The first kind has no defined meaning in C++:

- an empty statement, because `currentLine[0]` is read;
- an empty group `[ ]`, because `words[0][0]` is read on an empty list;
- a table with 33 or more inputs that gets evaluated, because `1 <<` then
  shifts an `int` by 32 or more places;
- a `min` argument whose number does not fit an `int`, because `atoi` then
  has no defined result.

The second kind does have a defined meaning in C++, but the model leaves it
out:

- Unbalanced expressions. A stray `]` wraps the `size_t` depth counter at
  src/interpreter.cpp:201. An unclosed `[` leaves a buffer that
  src/interpreter.cpp:222 drops.
- Evaluating a table with exactly 32 inputs. Its shift `1 << 31` is defined
  from C++14 on.

The run loop stops with `Undefined` at the first statement of either kind.

## Model

| member | source | states |
|---|---|---|
| Interpreter.NextStatement | src/interpreter.cpp:42-51 | The statement is exactly the tokens from the cursor up to the next `;` and contains no `;`. The cursor lands just past that `;`, or at the end of the stream if there is none, and it always advances. |
| Interpreter.Collect | src/interpreter.cpp:43-51 | The collecting loop keeps what was already collected, appends exactly the slice before the next separator, and consumes that separator. |
| Scripts.NextStatementAt | src/interpreter.cpp:42-51 | The splitter's result is unique: for any n such that the n tokens after the cursor have no `;` and end at a `;` or the end, the statement is those n tokens. |
| Interpreter.RunFrom | src/interpreter.cpp:26-37 | Running statements one by one keeps the state valid. It never overwrites a cell. Events only get appended. A run that stops early reports a line between the first line run and the number of tokens left. |
| Interpreter.Run | src/interpreter.cpp:26-37 | The definition of the whole run: from empty pools on line 1. A run that stops early names a line from 1 to the number of tokens. Its steps are stated by Scripts.RunFromStep. |
| Scripts.RunFromStep | src/interpreter.cpp:29-33 | One turn of the loop: the next statement runs on the current line. An error aborts with the events so far. Otherwise the loop goes on past the separator with the line one higher. |
| Scripts.OneStatementProgram | src/interpreter.cpp:26-37 | A stream with no separator runs as a single statement on line 1. |
| Scripts.AliasKeepsOldValue | src/interpreter.cpp:160-167 | `a 1 ; b a ; a 0 ; print b` completes and prints `b = true`: the alias shares the old cell, and rebinding `a` makes a new one. |
| Scripts.PrintUnknownAborts | src/interpreter.cpp:76-95 | `print z` with nothing defined aborts on line 1 with "Variable not found" and prints nothing. |
| Scripts.NorTable | src/interpreter.cpp:120-158 | In any valid state, for any target name `x` and any bound variables `a` and `b`, `x set a b` and then `x min 0` both run through `Execute` silently. The table `x` is then true exactly when the values of `a` and `b` are both false. |
| Scripts.NorValue | src/interpreter.cpp:337-348 | A table over any two cells with minterm 0 is true exactly when both cells are false. |
| Statements.Execute | src/interpreter.cpp:54-177 | Dispatch on the first two tokens in the source's order. Every statement keeps the state valid and only adds cells. A failure reports the statement's own line. |
| Statements.ReadInputs | src/interpreter.cpp:54-75 | `input` keeps the state valid and only adds cells. Its only failure is "Invalid identifier", on the statement's line. |
| StatementProperties.InputFailsOnBadName | src/interpreter.cpp:58-64 | `input` fails with "Invalid identifier" exactly when some listed name is not an identifier. |
| StatementProperties.InputReadsOneWordPerName | src/interpreter.cpp:66-68 | A successful `input` adds one cell per name. The cell is true exactly when its word of input is "1", and false once the input is exhausted. |
| StatementProperties.InputConsumesOneWordPerName | src/interpreter.cpp:58-70 | A successful `input` consumes one word of input per name, or all that is left. |
| StatementProperties.InputBindsEachName | src/interpreter.cpp:68 | After `input`, the bound names are the old ones plus the listed ones. Each listed name holds the cell of its last occurrence. Other names keep their cells. |
| StatementProperties.InputBindsListedNames | src/interpreter.cpp:66-68 | After a successful `input`, every listed name is bound. |
| StatementProperties.InputBindsLastOccurrence | src/interpreter.cpp:66-68 | A name listed more than once holds the cell made for its last occurrence, the k-th new cell. |
| StatementProperties.ReadInputsKeepsOthers | src/interpreter.cpp:68 | `input` neither touches names it does not list nor the logic pool. |
| Statements.PrintNames | src/interpreter.cpp:76-101 | `print` changes no state. Its only failure is "Variable not found", on the statement's line. |
| StatementProperties.PrintStatement | src/interpreter.cpp:76-101 | `print` shows the names in order, each with its variable's value or else its table's current value. It succeeds exactly when every name resolves. Otherwise it stops at the first unknown name with "Variable not found" and prints nothing for it. |
| StatementProperties.UnusedLineWarns | src/interpreter.cpp:102-106 | A one-token statement other than `input` and `print` changes nothing and only warns "Unused line" on its line. |
| Statements.ResolveInputs | src/interpreter.cpp:123-131 | The `set` loop succeeds exactly when every input is a variable. The result is the inputs' current cells in order. A failure names a missing input. |
| Statements.SetTable | src/interpreter.cpp:120-135 | `set` leaves the variables and cells alone. |
| StatementProperties.SetStatement | src/interpreter.cpp:120-135 | A missing input fails and changes nothing. Otherwise the entry is replaced by the inputs' current cells with no minterms, whatever the earlier entry held. Other entries are unchanged. |
| Statements.AddMinterms | src/interpreter.cpp:144-155 | The `min` loop only ever adds minterms below 2^K. |
| StatementProperties.AddMintermsSpec | src/interpreter.cpp:144-155 | The `min` loop inserts exactly the in-range numbers and warns once per out-of-range number, in order. |
| Statements.InsertMinterms | src/interpreter.cpp:136-158 | `min` leaves the variables and cells alone. |
| StatementProperties.MinStatement | src/interpreter.cpp:136-158 | `min` on a name outside the logic pool fails and changes nothing. Otherwise it adds exactly the in-range numbers to that entry and warns on the rest. The entry's inputs and every other entry stay unchanged. |
| StatementProperties.OutOfRangeMintermIgnored | src/interpreter.cpp:147-150 | On a two-input table, `min 7` only warns "Meaningless number". |
| Statements.Assign | src/interpreter.cpp:160-177 | Two-token assignment never touches the logic pool and only adds cells. |
| StatementProperties.AssignStatement | src/interpreter.cpp:160-177 | The branches are tried in priority order: a literal binds a fresh cell; a variable makes the target share its cell; a table binds a fresh cell holding its current value; anything else fails with "Variable not found" and changes nothing. |
| Statements.AssignExpression | src/interpreter.cpp:110-118 | An expression statement never touches the logic pool and only adds cells. |
| StatementProperties.OthersKeepTheirValues | src/interpreter.cpp:68 | A successful statement leaves every name it does not target on the same cell, with the same value. This also covers 115, 162, 166 and 171. |
| StatementProperties.TablesKeepTheirCells | src/interpreter.cpp:130-132 | A table's entry and value survive every statement except `set`/`min` on that table, even when its input names are rebound. |
| StatementProperties.NotStatementIgnoresLater | src/interpreter.cpp:275-276 | `x not w rest` assigns exactly what `x not w` assigns. |
| StatementProperties.ExpressionStatement | src/interpreter.cpp:110-118 | Any `x and|or|not ...` statement with a well-formed expression is defined, and it runs as an assignment of the expression's value to `x`. |
| Grouping.LogicWords | src/interpreter.cpp:185-223 | On balanced input the words concatenate back to the input. Each word is a single non-bracket token or a `[ ... ]` span with a balanced interior. |
| Grouping.LogicWordsOfConcat | src/interpreter.cpp:185-223 | Grouping inverts concatenation: a list of atoms and groups is recovered from its tokens. |
| Grouping.ScanPartitions | src/interpreter.cpp:191-220 | The loop invariant of the depth counter: words so far plus the open buffer are the prefix read, and the buffer is an open group at the current depth. |
| Grouping.Scan | src/interpreter.cpp:191-222 | The definition of the depth-counter loop. Its property is stated by Grouping.ScanPartitions and Grouping.LogicWords. |
| Evaluator.EvalAll | src/interpreter.cpp:245-265 | The reference operand evaluation gives each operand's value in order, and fails exactly when some operand fails. |
| Evaluator.Eval | src/interpreter.cpp:225-281 | The definition of LogicProcessing. An error names a variable that is missing from the pool. Its meaning is stated by Evaluator.AndIsConjunction, OrIsDisjunction, NotIgnoresLaterOperands and NotWithoutOperandIsFalse. |
| Evaluator.Combine | src/interpreter.cpp:245-278 | The definition of the operand loop. An error names a missing variable. Its fold is stated by Evaluator.CombineFolds. |
| Evaluator.Operand | src/interpreter.cpp:248-265 | The definition of one operand's value. An error names a missing variable. The recursive case is stated by Evaluator.GroupInterior. |
| Evaluator.CombineFolds | src/interpreter.cpp:245-280 | `and`, `or` and a non-keyword head fold over all operands with no short-circuit, so the first missing name always surfaces. |
| Evaluator.AndIsConjunction | src/interpreter.cpp:229-233 | `and` is the conjunction of all operands, true when there are none. |
| Evaluator.OrIsDisjunction | src/interpreter.cpp:234-238 | `or` is the disjunction of all operands, false when there are none. |
| Evaluator.NotWithoutOperandIsFalse | src/interpreter.cpp:239-243 | `not` with no operand leaves the loop untouched and gives false. |
| Evaluator.NotIgnoresLaterOperands | src/interpreter.cpp:275-276 | `not w rest` equals `not w`: later operands are never evaluated, so they neither change the value nor raise an error. |
| Evaluator.MissingOperandFails | src/interpreter.cpp:248-254 | A bare operand missing from the variable pool makes `and`/`or` fail with "Variable not found". |
| Evaluator.GroupInterior | src/interpreter.cpp:260-264 | A bracketed operand's interior is a non-empty well-formed expression, evaluated recursively. |
| Evaluator.KeywordThenWords | src/interpreter.cpp:112-113 | The keyword after the target is a word of its own, and the operands are the words of the rest. |
| Minterms.Pack | src/interpreter.cpp:339-346 | The packing loop computes Σ bit_i·2^(K−1−i), with input 0 as the most significant bit. The result is below 2^K and fits an `int`. |
| Minterms.PackFrom | src/interpreter.cpp:339-346 | The packing loop from input i on adds the weighted sum of the remaining bits to the accumulator. |
| Minterms.PackExample | src/interpreter.cpp:339-346 | Inputs (1, 0, 1) pack to 5. |
| Minterms.DecodePack | src/interpreter.cpp:339-346 | Decoding a packed row gives back the bits. |
| Minterms.PackDecode | src/interpreter.cpp:339-346 | Packing the decoding of any number below 2^K gives back that number. |
| Minterms.TrueExactlyOnListedRows | src/interpreter.cpp:337-348 | A table is true exactly when its inputs' current values are the row of one of its minterms. |
| Minterms.IsValueInMins | src/interpreter.cpp:337-348 | The table is true exactly when the weighted sum of its inputs' current bits is a minterm. The row reading is stated by Minterms.TrueExactlyOnListedRows. |
| Pools.BindFresh | src/interpreter.cpp:68 | A write binds the name to a new cell holding the value and overwrites none. |
| Pools.TableValueStable | src/interpreter.cpp:337-348 | Adding cells does not change a table's value. |
| Identifiers.IsValidCppIdentifier | src/interpreter.cpp:283-312 | Accepts exactly the non-empty strings that start with a letter or `_` and continue with letters, digits or `_`. |
| Identifiers.TailIsWordChars | src/interpreter.cpp:297-303 | The character loop succeeds exactly when every later character is a letter, digit or `_`. |
| Identifiers.KeywordsAreAccepted | src/interpreter.cpp:305-309 | The keyword test asks for membership in both keyword sets, which are disjoint, so every keyword is accepted. |
| Identifiers.ConvertToBoolLiterals | src/interpreter.cpp:315-325 | convertToBool reads "1" as true and "0" as false. Every other text is false, including the empty word and "true". |
| StatementProperties.AtoiOfSigned | src/interpreter.cpp:146 | atoi reads a signed decimal numeral back as its value. |
| StatementProperties.AtoiStopsAtNonDigit | src/interpreter.cpp:146 | atoi stops at the first non-digit: "12ab" reads as 12. |
| StatementProperties.AtoiWithoutDigitsIsZero | src/interpreter.cpp:146 | Text without leading digits after one optional sign reads as 0: "abc" and "--5". |
| StatementProperties.AtoiReadsPlusSign | src/interpreter.cpp:146 | A leading `+` is accepted: "+5" reads as 5. |

## Left out

- File reading and whitespace tokenization (`src/file.cpp`, `head/file.h`) are not part of this model. The token stream is the input.
- `src/main.cpp` only reads the command line and starts the interpreter. It is not part of this model.
- `head/interpreter.h` declares a stale `map<string,bool>` variable pool and none of the logic pool. The model follows `src/interpreter.cpp`.
- The timing of `Run`, including the pause around `input` (`std::chrono`, `getRunDuration`), is left out. It does not affect the state.
- Console colouring and message wording are left out. Errors are an `ErrorKind` with the line, and warnings and printed lines are events.
- Console input is a list of words rather than `std::cin`.
- The `pow(2, K)` bound of `min` is the exact integer 2^K. The two agree on every `int` argument.
- `atoi` is modelled on tokens, which hold no white space, so leading blanks are not skipped. A number outside `int` range is left out because `atoi` has no defined result there.
- Non-ASCII letters under another locale are left out: `std::isalpha`/`std::isalnum` follow the "C" locale.
- `InstructionType::Illegal` (head/interpreter.h:17) is not modelled. Nothing in src/interpreter.cpp reports it.
- Statements.Defined: unbalanced expressions are excluded even though C++ defines them: a stray `]` wraps the `size_t` depth counter (src/interpreter.cpp:201) and an unclosed `[` drops its buffer (src/interpreter.cpp:222). The model proves its grouping properties on balanced input only.
- Statements.Defined: the empty group `[ ]` is excluded anywhere in an expression. The source only misbehaves when such a group is actually evaluated; a `not` that returns early, or an earlier missing name, would skip it.
- Statements.Defined: every `print` target that is a table must have at most 31 inputs. The source only evaluates the targets before the first unknown name.
- Statements.Defined: a table used as an assignment source must have at most 31 inputs. The source only misbehaves from 33 inputs on, when a high input is true. With exactly 32 inputs, `1 << 31` is undefined only before C++14. From C++14 on it yields `INT_MIN`, and the sum is then negative and never a minterm. Over-wide tables are simply not evaluated by the model.
- Statements.Defined: a table with exactly 32 inputs is excluded wherever it would be evaluated, although since C++14 its value is defined as described above.
- Interpreter.RunFrom: an undefined statement stops the run with `Undefined` instead of modelling what the compiled program might do.
