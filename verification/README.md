# Verified models of the powdr compiler passes

powdr compiles assembly machines and a functional constraint language (PIL) to algebraic constraints over
a prime field. This project models the passes whose correctness is a statement about meaning, and proves
those statements:

- **VM compiler** (`Congruence`, `Pil`, `Asm`, `VmCompile`, `VmAffine`, `VmTrace`, `VmRegisters`, `VmTheorem`,
  `VmRuns`, `VmInstructions`, `VmAcceptance`, `VmConverter`, `VmFreeInputs`, `RomGen`, `RomFunctions`, `VmExample`,
  `RomExample`). `Asm` says what it means for a table of rows to be a run of
  an assembly machine. `VmCompile` computes the code lines, ROM entries, looked-up columns and identities that
  the compiler generates; `VmConverter` builds them with the loops of the source. The main theorem,
  `VmConverter.OutputAcceptsRuns`, says that a table is a run if and only if witness columns can be added so
  that the generated identities and the ROM lookup hold, for every well-formed program and every ROM height,
  on tables in which at most one writer of a register, among those of the line that a row executes, takes effect.
  Without any condition on the table, `VmConverter.OutputAcceptsSums` says the same of the runs in which the
  writers of a register add up; `VmRuns.RunIff` shows that both kinds of run coincide under the condition.
  `VmInstructions` says what a row does statement by statement, and `VmAcceptance` which programs are accepted.
  `RomGen` adds the dispatcher and shows that every accepted table decomposes into function calls; `RomFunctions`
  shows that the generated code of a function means what the function says, with its parameters bound.
- **Evaluator** (`Types`, `PilLang`, `BigStep`, `StackMachine`, `Refinement`, `Evaluator`, `Operators`, `Patterns`,
  `Language`). The stack machine of the evaluator refines a recursive semantics in which fuel is spent on calls only;
  both terminate on the same inputs and no stack underflows. What both compute is pinned down by the laws of the
  operators (`Operators`), a meaning of patterns without an order of matching (`Patterns`), and laws of calls, let
  statements and literals (`Language`). `&&` and `||` evaluate both operands, as in the source.
- **Name resolution** (`Named`, `NameResolution`, `Scoping`, `ExpressionProcessor`). Evaluating resolved,
  level-numbered code equals evaluating source code with variables looked up by name (innermost binding); `Scoping`
  says which expressions are accepted.
- **Expressionizer** (`PolyIds`, `Relation`, `Expressionizer`, `RoundTrip`, `Simulation`, `BuildableRuns`,
  `CondenserRuns`). A runtime value turned back into source evaluates to the same value up to the numbering of
  captured variables, and closures related in this way cannot be told apart by calling them. `CondenserRuns` shows
  this for values computed over the condenser's symbol table, functions over columns created on the way included.
- **Type unifier** (`Unification`, `UnifierTheorems`, `UnifierBottom`, `TypeUnifier`), **link merging** (`LinkMerging`),
  **Goldilocks arithmetic** (`NumberTheory`, `Goldilocks`; including Fermat's little theorem and a proof that
  the order is prime), **call graph sorting** (`CallGraph`), **import resolution** (`Imports`, `ImportPaths`) and
  the **caching expression evaluator** (`CachingEvaluator`, `CachingMeaning`).

Conventions. Field elements are integers, and equality in the field is congruence modulo `p`. Host-language
panics are an error value (`Panic`, `None`, `Panicked`). Symbol lookup, column creation, builtin functions and
the big-number operations other than addition, subtraction, multiplication and comparison are parameters of
the evaluator (`GSymbols`, `IntLib`), which may change an arbitrary symbol state; theorems about two evaluations
assume that these parameters treat corresponding values alike.

Where the code differs from its documentation, the model follows the code:

- `linearize` announces an expression of degree at most one and admits that it can fail. `Pil.LinearizeDegree`
  shows that it succeeds exactly if no product occurs under a unary operator; `Pil.NegHidesProduct` is an instance
  of failure.
- Unification compares the arguments of named types only up to the shorter list
  (`UnifierTheorems.ArgumentListsTruncate`), so its result is sound up to truncation
  (`UnifierTheorems.UnifiedTypesTruncate`), and the types agree iff corresponding argument lists have equal length
  (`UnifierTheorems.UnifiedTypesAgree`).
- A trait bound is checked when a variable is bound, so unification can fail although a solution exists
  (`UnifierTheorems.BoundsAreEager`). This happens exactly if a variable with the bound `ToSelectedExprs` is bound to
  an array whose element type is still a variable (`UnifierTheorems.UnifyComplete`).
- A variable that is bound to a type with the bottom type inside unifies with types that have nothing in common
  (`UnifierBottom.BottomForgets`). Conversely, types that agree up to the bottom type under an assignment without it
  unify, unless a bound is checked too early or asked of the bottom type (`UnifierBottom.UnifyUpTo`).
- A relative path leads from its base to the path it was made from, provided that no name in it is empty
  (`ImportPaths.RelativeIff`).
- The update sum of a register adds up the values of all active conditions (`Pil.TwoActiveConditions`), which the
  compiler does not exclude. Two links that act together on `R'` force `R` to keep its value although each of them
  allows any (`VmTheorem.TwoLinks`, and `VmExample.BothLinksAct` for a program).
- Imports that were followed stay in the dependency chain, so a path that uses an import twice is reported as a cycle
  (`Imports.RepeatedImportIsLost`). Resolution finds exactly the paths that denote a symbol and visit no path twice
  (`Imports.FoundIff`).
- Free inputs of one right-hand side share the free-value column of their assignment register, so that all of them
  have the same value in a row. In a prime field this changes nothing if and only if their coefficients do not add up
  to zero or are all zero (`VmFreeInputs.SharingIff`); the difference of two free inputs is always zero
  (`VmFreeInputs.DifferenceIsZero`).

## Model

| member | source | states |
|---|---|---|
| `VmConverter.OutputAcceptsRuns` | asm-to-pil/src/vm_to_constrained.rs:144-299 | a table in which at most one writer of each register takes effect on the line a row executes is a run of the source program iff witness columns can be added so that the generated identities, with the generated intermediate columns, and the lookup into the generated, padded ROM hold |
| `VmConverter.OutputAcceptsSums` | asm-to-pil/src/vm_to_constrained.rs:144-299 | with no condition on the table: it extends to one that satisfies the generated constraints iff it is a run in which every register changes by the sum over the writers of the executed line |
| `VmConverter.ConvertMachine` | asm-to-pil/src/vm_to_constrained.rs:144-299 | the pass succeeds exactly on accepted programs and returns exactly the identities, intermediate columns, looked-up columns and ROM entries of the compiled machine |
| `VmRuns.CompilationCorrect` | asm-to-pil/src/vm_to_constrained.rs:144-299 | the compiled constraints accept exactly the runs of a well-formed program, for every ROM height that holds the code, on tables with at most one writer in effect per register, several conditional links per register included |
| `VmRuns.CompilationSums` | asm-to-pil/src/vm_to_constrained.rs:144-299 | the compiled constraints accept exactly the runs that add up all writers, on every table |
| `VmRuns.RunIff` | asm-to-pil/src/vm_to_constrained.rs:1207-1232 | if at most one writer of each register takes effect on the executed line, adding up the writers and writing the value of the one in effect give the same runs |
| `VmRuns.SatisfyingTableIsRun` | asm-to-pil/src/vm_to_constrained.rs:189-251 | soundness: in a satisfying table each row executes the code line at its pc and, with at most one writer in effect, writes exactly the named registers |
| `VmRuns.RunHasTable` | asm-to-pil/src/vm_to_constrained.rs:924-1050 | completeness: every run with at most one writer in effect extends, without changing registers, to a table that satisfies all constraints |
| `VmInstructions.AcceptedConstraintHolds` | asm-to-pil/src/vm_to_constrained.rs:546-558 | in every accepted table, without any condition on it, a row that invokes an instruction satisfies every equation of its body whose left side is not a register on the next row, with the literal arguments bound |
| `VmInstructions.UpdateHolds` | asm-to-pil/src/vm_to_constrained.rs:1287-1319 | in a step in which at most one writer of a register takes effect, an equation of the body for its next value holds |
| `VmInstructions.AssignmentHolds` | asm-to-pil/src/vm_to_constrained.rs:301-362 | after an assignment the register holds a value that its right-hand side can read |
| `VmInstructions.OutputHolds` | asm-to-pil/src/vm_to_constrained.rs:682-772 | the register that the caller names gets the value of the output |
| `VmInstructions.InputHolds` | asm-to-pil/src/vm_to_constrained.rs:682-772 | an argument is read into the assignment register of its parameter |
| `VmInstructions.UnmentionedIsKept` | asm-to-pil/src/vm_to_constrained.rs:196-251 | a write register that a line does not mention keeps its value |
| `VmAcceptance.AcceptedIff` | asm-to-pil/src/vm_to_constrained.rs:144-362 | the compiler accepts exactly the programs in which every batch ends in one statement that can be compiled and otherwise holds labels and directives, no label is in two batches, and what they mention is declared |
| `VmAcceptance.RhsIff` | asm-to-pil/src/vm_to_constrained.rs:774-889 | a right-hand side is accepted iff one factor of every product is a single constant, and powers have single constants with an exponent of 32 bits |
| `VmCompile.PaddedColumn` | asm-to-pil/src/vm_to_constrained.rs:1074-1090 | a ROM column is its values and then repetitions of the last one |
| `VmTheorem.RegisterSumIff` | asm-to-pil/src/vm_to_constrained.rs:1207-1232 | with any number of writers and any conditions, the identities of a register hold iff its next value is the default plus the sum over all writers of condition times difference to the default |
| `VmTheorem.RegisterIff` | asm-to-pil/src/vm_to_constrained.rs:196-251 | on a row that carries a code line, for a register with at most one writer of that line in effect, the update identities hold iff the next value is what the line writes, or the default |
| `VmTheorem.WritersDeviation` | asm-to-pil/src/vm_to_constrained.rs:1207-1232 | the update sum of the whole machine deviates from the default by exactly the sum over the writers of the active line |
| `VmTheorem.TwoWriters` | asm-to-pil/src/vm_to_constrained.rs:1215-1229 | if the conditions of the line's writers of a register are bits and exactly two are set, the identity holds iff the next value is the sum of both values minus the old one |
| `VmTheorem.TwoLinks` | asm-to-pil/src/vm_to_constrained.rs:612-622 | if exactly two links of the line that name `R'` act and no other writer, the register keeps its value |
| `VmTheorem.LinksInEffect` | asm-to-pil/src/vm_to_constrained.rs:612-622 | if the conditions are bits and exactly k links of the line and no other writer act, the identity holds iff k - 1 times the change of the register vanishes |
| `VmExample.BothLinksAct` | asm-to-pil/src/vm_to_constrained.rs:612-622 | a program in which the source semantics leaves the register free and the identity forces it to keep its value |
| `VmExample.ComplementaryLinks` | asm-to-pil/src/vm_to_constrained.rs:612-622 | links under a bit and its complement meet the condition of the compilation theorem on every row |
| `VmTrace.AssignSound` | asm-to-pil/src/vm_to_constrained.rs:891-920 | if the assignment identity holds on a row with a line's ROM entries, the assignment register has the value of the line's right-hand side |
| `VmTrace.AssignComplete` | asm-to-pil/src/vm_to_constrained.rs:891-920 | if the register has that value, some free value makes the assignment identity hold |
| `VmFreeInputs.SharingIff` | asm-to-pil/src/vm_to_constrained.rs:891-920 | in a prime field, for every accepted right-hand side: it can read the same values with one shared free value as with independent ones iff the coefficients of its free inputs do not add up to zero, or are all zero |
| `VmFreeInputs.DifferenceIsZero` | asm-to-pil/src/vm_to_constrained.rs:891-920 | the difference of two free inputs reads zero only |
| `VmAffine.ProcessValueCorrect` | asm-to-pil/src/vm_to_constrained.rs:774-889 | the affine form of a right-hand side denotes the expression it was made from, on every row |
| `VmAffine.AffineRhs` | asm-to-pil/src/vm_to_constrained.rs:953-990 | summing the coefficients of a component in the ROM and multiplying by the registers gives the affine form back |
| `VmTrace.BatchLine` | asm-to-pil/src/vm_to_constrained.rs:301-362 | a batch becomes the code line of its one effective statement |
| `VmTrace.LabelPositionsAgree` | asm-to-pil/src/vm_to_constrained.rs:1099-1109 | labels resolve to the position of the batch that carries them |
| `VmTrace.InputLiterals` | asm-to-pil/src/vm_to_constrained.rs:682-772 | literal arguments end up under the names of the declared parameters, labels as line numbers |
| `VmTrace.OutputTargets` | asm-to-pil/src/vm_to_constrained.rs:682-772 | each output register of an instruction is stored in exactly the register the caller names |
| `VmConverter.Converter.CollectConstraints` | asm-to-pil/src/vm_to_constrained.rs:154-251 | the passes over registers, instructions and assignment registers collect these identities, definitions and columns, in this order |
| `VmConverter.CollectedIdentities` | asm-to-pil/src/vm_to_constrained.rs:154-251 | the collected identities, with the machine's own, are exactly those of the compiled machine |
| `VmConverter.CollectedColumns` | asm-to-pil/src/vm_to_constrained.rs:1111-1117 | the columns collected for the lookup are exactly the looked-up columns |
| `VmConverter.Converter.HandleRegisterDeclaration` | asm-to-pil/src/vm_to_constrained.rs:364-409 | a write register gets one flag and one conditional update per assignment register |
| `VmConverter.Converter.HandleInstructionDef` | asm-to-pil/src/vm_to_constrained.rs:411-457 | an instruction adds its flag and parameters to the lookup, its updates to the registers and its constraints to the identities |
| `VmConverter.LinkPass` | asm-to-pil/src/vm_to_constrained.rs:612-622 | a link adds the update `R' = R'` under its combined flag to every register it mentions, and to no other |
| `VmConverter.BodyPass` | asm-to-pil/src/vm_to_constrained.rs:528-558 | updates in a body become linearized conditional updates with the definitions of their products, everything else a conditional constraint |
| `VmConverter.Converter.CreateConstraintsForAssignmentReg` | asm-to-pil/src/vm_to_constrained.rs:891-920 | the constraint of an assignment register and the columns looked up for it |
| `VmConverter.HandleBatches` | asm-to-pil/src/vm_to_constrained.rs:301-325 | one code line per batch; fails exactly if some batch is rejected |
| `VmConverter.ComputeLabelPositions` | asm-to-pil/src/vm_to_constrained.rs:1099-1109 | label positions; fails exactly on a duplicate label |
| `VmConverter.TranslateCodeLines` | asm-to-pil/src/vm_to_constrained.rs:924-1014 | the nested loops fill every ROM column of every line with its entry, including the overwrite of free-input entries on instruction lines |
| `Pil.UpdateExpressionValue` | asm-to-pil/src/vm_to_constrained.rs:1207-1232 | the update expression is the default plus the sum of condition times difference to the default |
| `Pil.OneActiveCondition` | asm-to-pil/src/vm_to_constrained.rs:1207-1232 | in any list of updates with exactly one active condition, the update expression has the value of that update |
| `Pil.TwoActiveConditions` | asm-to-pil/src/vm_to_constrained.rs:1215-1229 | in any list of updates with exactly two active conditions, the update expression is the sum of both values minus the default |
| `Pil.LinearizeExpands` | asm-to-pil/src/vm_to_constrained.rs:1154-1195 | expanding the introduced columns gives the original expression |
| `Pil.LinearizeRec` | asm-to-pil/src/vm_to_constrained.rs:1154-1195 | the introduced columns are numbered consecutively from the counter, hence distinct |
| `Pil.LinearizeDegree` | asm-to-pil/src/vm_to_constrained.rs:1145-1195 | the result is linear and every introduced definition a product of linear expressions iff no product is under a unary operator |
| `Pil.NegHidesProduct` | asm-to-pil/src/vm_to_constrained.rs:1154-1195 | a product under a unary minus is left as it is |
| `RomGen.GenerateMachineRom` | asm-to-pil/src/romgen.rs:91-216 | the ROM is the dispatcher, the functions and the sink; operation ids are the positions at which functions were appended |
| `RomGen.OperationIdIsEntry` | asm-to-pil/src/romgen.rs:128-200 | the batch at a function's operation id is its first one, with the function's label |
| `RomGen.EveryRowInBlock` | asm-to-pil/src/romgen.rs:71-102 | every row of a run lies in a block: line 0, then 1, then the operation id; id and inputs constant, write registers cleared |
| `RomGen.LatchedRow` | asm-to-pil/src/romgen.rs:218-241 | a latched row exposes the id and inputs of a run that entered at that function's first line, and is followed by line 0 |
| `RomGen.ColumnCounts` | asm-to-pil/src/romgen.rs:104-114 | there are exactly as many input and output columns as the largest function needs |
| `RomFunctions.ExprMeaning` | asm-to-pil/src/romgen.rs:27-46 | the generated expression has on a row the value of the source expression with parameter k equal to input column k |
| `RomFunctions.FunctionLine` | asm-to-pil/src/romgen.rs:145-200 | every line of a function does, with the parameters bound, what its batch does in the source |
| `RomFunctions.LatchedOutput` | asm-to-pil/src/romgen.rs:48-56 | a latched row lies in a function, on a line that returns, and output column j holds a value of the j-th expression that the source function returns there, with parameter m equal to input column m, or zero |
| `RomGen.AcceptedTableInBlocks` | asm-to-pil/src/romgen.rs:218-241 | the block structure holds of every table that satisfies the compiled constraints, however many writers take effect |
| `RomExample.IdentityIsWellFormed` | asm-to-pil/src/romgen.rs:91-216 | the program generated for a machine with one function of one input and one output is well-formed |
| `RomExample.IdentityReservesNames` | asm-to-pil/src/romgen.rs:91-216 | that program keeps the reserved names to the dispatcher |
| `Refinement.ExpandRefines` | pil-analyzer/src/evaluator.rs:870-984 | for every expression and any stacks below it, running its expansion pushes exactly the value of the recursive semantics, with the same symbol state, or fails alike |
| `Refinement.EvaluatorCorrect` | pil-analyzer/src/evaluator.rs:821-866 | machine and recursive semantics both finish or neither does, and finished results agree |
| `Refinement.HaltingNeedsLittleFuel` | pil-analyzer/src/evaluator.rs:844-866 | a machine that halts after k steps needs fuel k + 1 at most |
| `Refinement.NeverStuck` | pil-analyzer/src/evaluator.rs:844-866 | no stack ever underflows, at any step of any run |
| `Refinement.CallCorrect` | pil-analyzer/src/evaluator.rs:831-842 | started with a function call instead of an expression, machine and recursive semantics both finish or neither does, and finished results agree |
| `Evaluator.EvaluateExpression` | pil-analyzer/src/evaluator.rs:821-829 | a result within the given steps is the result of the recursive semantics, and exactly one value is left |
| `Evaluator.Evaluator.Evaluate` | pil-analyzer/src/evaluator.rs:844-866 | the loop performs the steps of the machine until the operation stack is empty |
| `Evaluator.Evaluator.EvaluateToEnd` | pil-analyzer/src/evaluator.rs:844-866 | the loop without a bound ends whenever the machine halts, in the same state |
| `Evaluator.EvaluateTerminating` | pil-analyzer/src/evaluator.rs:821-829 | whenever the recursive semantics has a result, evaluation terminates with exactly that result and symbol state |
| `Evaluator.EvaluateFunctionCall` | pil-analyzer/src/evaluator.rs:831-842 | whenever the recursive semantics of the call has a result, the second entry point terminates with exactly that result and symbol state |
| `Evaluator.Evaluator.Expand` | pil-analyzer/src/evaluator.rs:870-984 | expansion changes the stacks as the machine does |
| `Evaluator.Evaluator.Combine` | pil-analyzer/src/evaluator.rs:1036-1153 | combination changes the stacks as the machine does |
| `Evaluator.Evaluator.CombineFunctionCall` | pil-analyzer/src/evaluator.rs:1155-1201 | a call saves the environment and enters the body, or pushes a result |
| `Evaluator.Evaluator.EvaluateLetStatement` | pil-analyzer/src/evaluator.rs:986-1011 | a let statement adds the matched variables to the locals |
| `Evaluator.StatementOps` | pil-analyzer/src/evaluator.rs:954-976 | the operations of a block, pushed for the last statement first |
| `Operators.IntegerAddition` | pil-analyzer/src/evaluator.rs:1610-1638 | on integers, addition and subtraction undo each other, addition is commutative and has unit 0 |
| `Operators.IntegerNegation` | pil-analyzer/src/evaluator.rs:1064-1064 | minus is the additive inverse |
| `Operators.IntegerMultiplication` | pil-analyzer/src/evaluator.rs:1610-1638 | multiplication is commutative, has unit 1 and distributes over addition |
| `Operators.IntegerOrder` | pil-analyzer/src/evaluator.rs:1610-1638 | exactly one of less, equal and greater holds, the other comparisons are their complements, and the order is that of addition |
| `Operators.FieldAddition` | pil-analyzer/src/evaluator.rs:1592-1608 | on canonical field elements, addition and subtraction undo each other and give canonical results |
| `Operators.FieldNegation` | pil-analyzer/src/evaluator.rs:1060-1062 | minus is the additive inverse |
| `Operators.FieldMultiplication` | pil-analyzer/src/evaluator.rs:1592-1608 | multiplication is commutative, has unit 1 and distributes over addition |
| `Operators.FieldComparison` | pil-analyzer/src/evaluator.rs:1592-1608 | comparison decides congruence modulo the field order; there is no order |
| `Operators.FieldPower` | pil-analyzer/src/evaluator.rs:1263-1269 | a power is repeated multiplication; exponents outside 64 bits are errors |
| `Operators.ArrayAddition` | pil-analyzer/src/evaluator.rs:1245-1247 | the sum of arrays holds the items of both, in order |
| `Operators.AlgebraicMeaning` | pil-analyzer/src/evaluator.rs:1301-1315 | the expression built by an operator has on every row of every trace the value of the operation in the field, and two numbers are folded |
| `Operators.PowerMeaning` | pil-analyzer/src/evaluator.rs:1270-1292 | the same for powers, with the bounds on exponents |
| `Operators.NextMeaning` | ast/src/analyzed/mod.rs:1420-1439 | a shifted expression has on every row the value of the next row; shifting fails iff some reference is shifted already |
| `Operators.LookupMeaning` | pil-analyzer/src/evaluator.rs:1322-1404 | a lookup or permutation pairs the k-th expressions of both sides under the selectors of both sides, and fails iff the lengths differ |
| `Operators.MachineSubtracts` | pil-analyzer/src/evaluator.rs:1617-1617 | if the operands evaluate to integers, the machine for their difference halts with the integer that added to the second gives the first |
| `Patterns.MatchMeans` | pil-analyzer/src/evaluator.rs:234-303 | matching succeeds, binding these values, iff the value is an instance of the pattern with its variables standing for them, an ellipsis standing for any number of items |
| `Patterns.SelectedArm` | pil-analyzer/src/evaluator.rs:1117-1131 | the selected arm is the first one with an instance |
| `Patterns.BoundParams` | pil-analyzer/src/evaluator.rs:1167-1183 | parameters are bound to what they stand for in the arguments |
| `Patterns.IrrefutableIff` | ast/src/parsed/mod.rs:1595-1606 | a pattern is irrefutable iff it matches every value of its type |
| `Patterns.AcceptedIsProper` | pil-analyzer/src/expression_processor.rs:209-263 | the patterns that the name resolver accepts have at most one ellipsis in an array |
| `Language.CallBinds` | pil-analyzer/src/evaluator.rs:1155-1201 | calling a lambda expression evaluates its body in the environment of its definition, extended by what the parameters stand for |
| `Language.ConstructThenMatch` | pil-analyzer/src/evaluator.rs:1117-1131 | matching a constructed value on its variant binds the arguments it was constructed from |
| `Language.LetBinds` | pil-analyzer/src/evaluator.rs:986-1011 | a let statement binds the variables of its pattern to what they stand for in the value |
| `Language.LetCreates` | pil-analyzer/src/evaluator.rs:986-1011 | let statements without value or with the type of a column create a column of that name, type and value |
| `Language.LiteralMeaning` | pil-analyzer/src/evaluator.rs:1204-1237 | a literal stands for its number in its type, which it must fit, and a type variable for its argument |
| `Unification.SubstitutionIsApply` | ast/src/parsed/types.rs:195-210 | substituting type arguments is applying them as a substitution |
| `NameResolution.ResolutionCorrect` | pil-analyzer/src/expression_processor.rs:70-200 | for every accepted expression, evaluating by level gives the resolved result of evaluating by name, with any fuel |
| `NameResolution.ApplyCorrect` | pil-analyzer/src/evaluator.rs:1155-1201 | calling a closure by name and by level agree |
| `NameResolution.MatchResolves` | pil-analyzer/src/expression_processor.rs:209-263 | pattern variables get ids in the order in which matching binds them, through nested patterns and array ellipses |
| `NameResolution.LookupAtLevel` | pil-analyzer/src/expression_processor.rs:307-320 | the id of a name is the level of its innermost binding |
| `NameResolution.PatternKeepsDistinct` | pil-analyzer/src/expression_processor.rs:272-283 | names in scope stay distinct |
| `NameResolution.FindArmResolves` | pil-analyzer/src/evaluator.rs:1117-1131 | the same match arm is selected, with its variables numbered as its body expects |
| `Scoping.AcceptedIff` | pil-analyzer/src/expression_processor.rs:70-200 | an expression is accepted iff every name is in scope or resolves, every variable is new, and parameters and let statements have patterns that always match |
| `ExpressionProcessor.Processor.ProcessExpression` | pil-analyzer/src/expression_processor.rs:70-200 | the processor with its map and counter computes the resolved expression and restores the scope |
| `ExpressionProcessor.Processor.ProcessVariablePattern` | pil-analyzer/src/expression_processor.rs:272-283 | a variable gets the next id, a second definition fails |
| `ExpressionProcessor.Processor.ProcessOnePattern` | pil-analyzer/src/expression_processor.rs:209-263 | patterns are processed from left to right |
| `ExpressionProcessor.Processor.ProcessLambda` | pil-analyzer/src/expression_processor.rs:322-355 | parameters are in scope in the body only |
| `ExpressionProcessor.Processor.ProcessMatchArm` | pil-analyzer/src/expression_processor.rs:142-152 | every arm has its own scope |
| `ExpressionProcessor.Processor.ProcessBlock` | pil-analyzer/src/expression_processor.rs:357-422 | let variables are in scope until the end of the block |
| `RoundTrip.RoundTripCorrect` | pil-analyzer/src/expressionizer.rs:148-234 | whenever a buildable value converts, evaluating the expression in the empty environment gives a related value, without fuel |
| `RoundTrip.ValueRoundTrip` | pil-analyzer/src/expressionizer.rs:73-145 | the same below any number of earlier local variables, with references shifted past them |
| `RoundTrip.ConvertedBody` | pil-analyzer/src/expressionizer.rs:361-384 | over the captured values, the renumbered body is related to the closure's body |
| `RoundTrip.CapturedAt` | pil-analyzer/src/expressionizer.rs:94-110 | the new id of a captured variable is its position among the captured ones |
| `RoundTrip.AlgRoundTrip` | pil-analyzer/src/expressionizer.rs:236-294 | algebraic expressions evaluate back to themselves, array elements included |
| `RoundTrip.ColumnDecodes` | pil-analyzer/src/expressionizer.rs:296-357 | a column is referred to by name, an array element by array name and index |
| `RoundTrip.ConversionSucceeds` | pil-analyzer/src/expressionizer.rs:148-234 | conversion succeeds exactly on values without constructors, builtins and typed closures among what they contain or capture |
| `BuildableRuns.EvalBuilds` | pil-analyzer/src/evaluator.rs:870-1201 | over any symbol table whose answers are, every value an evaluation returns is one the round trip covers, over the columns that exist in the end |
| `BuildableRuns.EvaluatedValueRoundTrips` | pil-analyzer/src/expressionizer.rs:29-59 | a value computed by any evaluation is recomputed by its expression, in the state the evaluation ends in |
| `CondenserRuns.CondenserBuilds` | pil-analyzer/src/condenser.rs:412-550 | the symbol table that dispenses a fresh id and name for each new column returns only values the round trip covers |
| `CondenserRuns.EvalGrows` | pil-analyzer/src/condenser.rs:507-524 | every evaluation over it only adds columns, and keeps ids decodable and names distinct |
| `CondenserRuns.CreatedColumnsRoundTrip` | pil-analyzer/src/expressionizer.rs:29-59 | a value computed by any evaluation over it is recomputed by its expression, columns created by that evaluation included |
| `CondenserRuns.FindUnused` | pil-analyzer/src/condenser.rs:660-672 | the search for an unused name ends, with a name that is not taken |
| `CondenserRuns.FirstUnused` | pil-analyzer/src/condenser.rs:660-672 | it is the name itself if that is free, or else the one with the smallest number |
| `CondenserRuns.CreatedColumn` | pil-analyzer/src/condenser.rs:412-495 | exactly one column is created, of the kind and length that type and value ask for |
| `BuildableRuns.RecreatedFunctionBehaves` | pil-analyzer/src/expressionizer.rs:29-59 | the recreated function gives related results on all arguments, with any fuel |
| `Simulation.ExpressionsAgree` | pil-analyzer/src/evaluator.rs:870-1201 | expressions that differ only in the numbering of related locals evaluate to related results |
| `Simulation.ClosuresAgree` | pil-analyzer/src/evaluator.rs:1155-1201 | related functions give related results on related arguments |
| `Relation.RelatedIsEqual` | pil-analyzer/src/expressionizer.rs:52-58 | values without functions are related only to themselves, so that they are recomputed exactly |
| `PolyIds.Counters.WithExisting` | pil-analyzer/src/statement_processor.rs:66-86 | resumed counters are above all existing ids and no larger than needed |
| `PolyIds.Counters.DispenseSymbolId` | pil-analyzer/src/statement_processor.rs:92-97 | reserves consecutive ids of one kind |
| `PolyIds.ColumnRegistry.NewColumn` | pil-analyzer/src/condenser.rs:507-524 | creating columns, empty arrays included, keeps id ranges disjoint and every id decodable |
| `PolyIds.RegisterOne` | pil-analyzer/src/condenser.rs:510-524 | registering a column keeps ranges disjoint, below the counters, and entered at their starts |
| `PolyIds.RegisteredDecodes` | pil-analyzer/src/expressionizer.rs:308-315 | the largest start not above an id is the start of the symbol that owns the id |
| `PolyIds.ExistingDecodes` | pil-analyzer/src/condenser.rs:238-246 | the table of existing symbols decodes all ids iff no later symbol starts where a non-empty one starts |
| `Unification.Unify` | pil-analyzer/src/type_unifier.rs:61-114 | unification terminates and keeps the substitution idempotent and inside its universe |
| `UnifierTheorems.MostGeneral` | pil-analyzer/src/type_unifier.rs:61-114 | on bottom-free types, with bounds, success with argument lists of equal length iff no binding is premature and some assignment solves the state, respects the bounds and unifies the types; and then the result has exactly the unifying solutions |
| `UnifierTheorems.UnifyComplete` | pil-analyzer/src/type_unifier.rs:61-114 | an assignment that solves the state and unifies the types solves the result; if it respects the bounds, unification fails iff some binding of the run meets a `ToSelectedExprs` bound with an array of a variable |
| `UnifierTheorems.BindFailsIff` | pil-analyzer/src/type_unifier.rs:167-183 | binding a variable to a type with an instance that satisfies its bounds fails iff it has the bound `ToSelectedExprs` and the type is an array of a variable |
| `UnifierTheorems.NeverEager` | pil-analyzer/src/type_unifier.rs:167-183 | without `ToSelectedExprs` among the recorded bounds no binding is premature |
| `UnifierTheorems.UnifiedTypesTruncate` | pil-analyzer/src/type_unifier.rs:61-114 | on success the substituted types agree up to the bottom type and the end of the shorter argument list |
| `UnifierTheorems.UnifiedTypesAgree` | pil-analyzer/src/type_unifier.rs:61-114 | on success the substituted types agree up to the bottom type iff corresponding argument lists have equal length |
| `UnifierTheorems.KindedTypesAgree` | pil-analyzer/src/type_unifier.rs:61-114 | they do if all named types have the declared number of arguments |
| `UnifierTheorems.UnifyKeepsBounds` | pil-analyzer/src/type_unifier.rs:167-183 | every bound of an eliminated variable holds of the type it resolves to |
| `UnifierTheorems.ArgumentListsTruncate` | pil-analyzer/src/type_unifier.rs:104-111 | argument lists of different length unify |
| `UnifierTheorems.BoundsAreEager` | pil-analyzer/src/type_unifier.rs:176-180 | an instance in which a bound fails although the types have a common instance that satisfies it |
| `UnifierTheorems.TraitInstances` | pil-analyzer/src/type_builtins.rs:156-201 | which elementary types satisfy each trait |
| `UnifierTheorems.StructuredInstances` | pil-analyzer/src/type_unifier.rs:28-59 | which arrays, tuples and named types satisfy a trait |
| `UnifierBottom.BottomUnifies` | pil-analyzer/src/type_unifier.rs:69-69 | a type unifies, without any effect, with itself after replacing sub-types on either side by the bottom type |
| `UnifierBottom.UnifyUpTo` | pil-analyzer/src/type_unifier.rs:61-114 | if an assignment without the bottom type solves the state and makes the types agree up to the bottom type, it so solves the result; if it respects the bounds, unification fails iff some bound is checked before an element type is known or asked of the bottom type |
| `UnifierBottom.BottomForgets` | pil-analyzer/src/type_unifier.rs:69-69 | unification succeeds on types that no such assignment makes agree |
| `TypeUnifier.Unifier.Substitute` | pil-analyzer/src/type_unifier.rs:116-126 | resolving the triangular substitution on demand terminates and gives the fully resolved type |
| `TypeUnifier.Unifier.EnsureBound` | pil-analyzer/src/type_unifier.rs:28-59 | succeeds iff the resolved type can satisfy the trait, and records exactly the bounds it needs |
| `TypeUnifier.Unifier.AddSubstitution` | pil-analyzer/src/type_unifier.rs:167-183 | binds a variable unless it occurs in the type or a bound fails; the state stays acyclic in any case |
| `TypeUnifier.Unifier.UnifyTypes` | pil-analyzer/src/type_unifier.rs:61-114 | refines unification over an idempotent substitution |
| `TypeUnifier.SameSolutions` | pil-analyzer/src/type_unifier.rs:116-126 | the triangular substitution and its resolved form have the same solutions |
| `TypeUnifier.Unifier.InstantiateScheme` | pil-analyzer/src/type_unifier.rs:128-162 | the quantified variables are replaced by distinct variables the state does not mention, with exactly the bounds of the scheme |
| `TypeUnifier.SchemeInstances` | pil-analyzer/src/type_unifier.rs:133-151 | assigning the new variables gives every instance of the scheme |
| `LinkMerging.MergingPreservesMeaning` | airgen/src/lib.rs:371-488 | merged lookups hold on a trace iff the original ones do, and every target receives the same multiset of tuples |
| `LinkMerging.ProcessAndMergeLinks` | airgen/src/lib.rs:371-488 | the pass returns the unmergeable links followed by the merged sets of every target |
| `LinkMerging.MergeSends` | airgen/src/lib.rs:440-484 | a merged link sends on a row exactly what the links of its set send |
| `LinkMerging.SelectorValue` | airgen/src/lib.rs:463-468 | the combined flag has on a row the value of the instruction flag, if there is one, times the link flag |
| `LinkMerging.MergeableIff` | airgen/src/lib.rs:393-409 | a link is merged iff it has an instruction flag and no input or output mentions the next row |
| `LinkMerging.GroupLinks` | airgen/src/lib.rs:419-438 | the loop groups the mergeable links of every target by first fit |
| `LinkMerging.GroupPartitions` | airgen/src/lib.rs:419-438 | no link is lost or duplicated |
| `LinkMerging.GroupPrefixes` | airgen/src/lib.rs:419-438 | no set repeats a flag, and a flag is in exactly the first sets, as many as it has links |
| `LinkMerging.SetsAreMultiplicity` | airgen/src/lib.rs:419-438 | the number of sets is the largest multiplicity of a flag |
| `LinkMerging.FewestSets` | airgen/src/lib.rs:419-438 | no other partition without repeated flags has fewer sets |
| `Goldilocks.Add` | number/src/goldilocks.rs:154-165 | exact modulo the order, canonical, without a second overflow |
| `Goldilocks.Sub` | number/src/goldilocks.rs:174-185 | exact modulo the order, canonical, without a second underflow |
| `Goldilocks.Neg` | number/src/goldilocks.rs:141-152 | exact modulo the order, canonical |
| `Goldilocks.AddNoCanonicalize` | number/src/goldilocks.rs:248-254 | does not overflow below 2^64 plus the order |
| `Goldilocks.Reduce128` | number/src/goldilocks.rs:256-273 | every 128-bit number is reduced to its canonical remainder, with no intermediate overflow |
| `Goldilocks.PowFe` | number/src/goldilocks.rs:341-358 | the loop computes the power for every 64-bit exponent |
| `Goldilocks.ExpPowerOf2` | number/src/goldilocks.rs:100-106 | n squarings give the power 2^n |
| `Goldilocks.TryInverse` | number/src/goldilocks.rs:55-92 | the addition chain computes exactly the power order - 2; only zero has no inverse |
| `Goldilocks.InverseCorrect` | number/src/goldilocks.rs:44-54 | every nonzero element times its inverse is one |
| `Goldilocks.OrderIsPrime` | number/src/goldilocks.rs:43-43 | the order is prime |
| `Goldilocks.Div` | number/src/goldilocks.rs:212-219 | the quotient times the divisor is the dividend; only division by zero fails |
| `Goldilocks.FromI64` | number/src/goldilocks.rs:112-123 | wrapping addition gives the canonical representative |
| `Goldilocks.SignedRoundTrip` | number/src/traits.rs:183-195 | signed read-back inverts the conversion iff the number is at most (order - 1) / 2 in absolute value |
| `CallGraph.SortCalledFirst` | pil-analyzer/src/call_graph.rs:10-22 | succeeds iff the graph is closed under calls; then every symbol occurs once, called symbols before callers unless they can reach them |
| `CallGraph.Sorter.Visit` | pil-analyzer/src/call_graph.rs:24-38 | a visit finishes all reachable symbols and keeps the order, while open symbols can reach the visited one |
| `Imports.CanonicalResolvesToItself` | importer/src/path_canonicalizer.rs:469-585 | the path that resolution finds resolves to itself, to the same symbol |
| `Imports.FoundIff` | importer/src/path_canonicalizer.rs:469-585 | resolution finds a path iff it denotes a symbol and following it visits no path twice, and then finds the import-free path of that symbol |
| `ImportPaths.RelativeIff` | ast/src/parsed/asm.rs:301-320 | joining the base and the relative path gives the path back iff no name below the common prefix is empty |
| `ImportPaths.JoinSupers` | ast/src/parsed/asm.rs:333-350 | `super` undoes a name and fails at the root |
| `ImportPaths.JoinNames` | ast/src/parsed/asm.rs:333-350 | names are appended, and an empty name starts again at the root |
| `ImportPaths.MemberIff` | importer/src/path_canonicalizer.rs:488-580 | members are the first definitions of a module that are no imports, the variants of an enum and the functions of a trait; a struct stands for anything below it |
| `Imports.CheckDenotes` | importer/src/path_canonicalizer.rs:469-585 | what resolution finds is the import-free path that following imports denotes, and the chain grows by the paths visited, none of them twice |
| `Imports.RepeatedImportIsLost` | importer/src/path_canonicalizer.rs:402-422 | a path that uses an import twice denotes a symbol and is not found |
| `Imports.ResolutionUnique` | importer/src/path_canonicalizer.rs:402-422 | what resolution finds does not depend on the dependency chain or on earlier records |
| `Imports.CheckRecords` | importer/src/path_canonicalizer.rs:581-584 | every recorded path is import-free and names the same symbol as its key, directly or through the prelude |
| `Imports.Check` | importer/src/path_canonicalizer.rs:469-480 | resolution terminates on every module tree, cyclic imports included, and finds import-free paths |
| `Imports.State.CheckPathTryPrelude` | importer/src/path_canonicalizer.rs:426-448 | the path is recorded with the symbol it denotes if it is reachable, else with the one the symbol denotes in the prelude if that is reachable; otherwise nothing is found |
| `CachingEvaluator.ExpressionEvaluator.Evaluate` | executor-utils/src/expression_evaluator.rs:168-207 | every call returns the value of the full expansion, and every cache entry is the value of its expanded definition |
| `CachingMeaning.EvaluatorMeaning` | executor-utils/src/expression_evaluator.rs:168-207 | over a field, the value is that of the expression on a row of any trace in which intermediate columns have the values of their definitions |
| `CachingMeaning.HasValueIff` | executor-utils/src/expression_evaluator.rs:168-207 | there is a value iff all operators are supported and all intermediate columns are defined, here and in the definitions used |

## Left out

- Column names are structured values; collisions between names formed by string concatenation are not modelled.
- Conditional lookups inside instruction bodies, prover queries and hints, debug directives, degrees and the validation of instruction parameters are not part of the VM compiler model.
- VmRuns.CompilationCorrect: on the line that a row executes, at most one writer of a register may take effect, and the flags of links that name it are 0 or 1; `VmRuns.CompilationSums` has no such condition.
- An instruction that would introduce the same intermediate column twice is not well-formed here; the analyzer rejects the generated definitions (pil-analyzer/src/pil_analyzer.rs:501).
- VmConverter.TranslateCodeLines: stores the ROM by row instead of by column, and does not build the query hints of free inputs.
- RomGen.EveryRowInBlock: assumes that functions do not invoke `_reset` and do not write the generated input registers, whose names start with an underscore.
- On instruction lines the output registers of the instruction are unconstrained by the assignment identity, as in the source; the model states the same.
- Division, remainder, power, bit operations and shifts on integers, builtin functions and symbol lookup are parameters of the evaluator model.
- Error messages, source references, struct expressions and the kinds of functions are not modelled; neither is the processing of types inside expressions.
- Evaluator.Evaluator.Evaluate: takes a bound on the number of steps, because an evaluation need not end; `EvaluateToEnd` is the loop without the bound, for evaluations that end.
- CondenserRuns.CondenserBuilds: omits stages, namespaces, hints and the values stored with a new column.
- RoundTrip.RoundTripCorrect: let statements for captured variables bind one fixed name, because local variable references carry no names here.
- In the name resolver, a match arm whose pattern fails is not processed further; the source processes its body and discards the result.
- LinkMerging.ProcessAndMergeLinks: adds up the links of a set in the order they were added, not in the order of their flags, and visits targets in any order.
- The worklist that collects machine instances, operation lookup and the checks on link definitions are not modelled; links are assumed to have the number of inputs and outputs of their operation.
- Goldilocks parsing and serialization do not reduce and are left out; shifts and masks are written as division and remainder.
- Call graphs are given as maps; collecting references from expressions is not modelled.
- The type checker, trait resolution, the parser, the proving backends, code generation and the command line are not modelled.
