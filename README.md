# Term rewriting core of the FHE compiler, modelled in Dafny

This project models the term-rewriting engine of an FHE (fully homomorphic encryption)
compiler. It also models the passes and helpers around the engine. The parts are:

- **The IR arena** (`ir.dfy`, module `Ir`). The engine works on an IR program: a DAG of
  terms. Each term has an opcode, a kind (ciphertext, plaintext, scalar or raw data), an
  ordered operand list and a list of parent labels. The program also holds a constants
  table. `ir::Program` is not part of this model. It appears as an arena: a map from labels
  to term records plus the primitives the engine calls. The class `Ir.Program` holds that
  state and updates it in place. Each of its methods is proved equal to a pure function on
  the arena.
- **The tables** (`trs_const.dfy`): the pattern kinds and opcodes, `opcode_mapping`,
  `term_type_map`, `rewrite_condition_types` and `term_types_attributes`.
- **Patterns and matching** (`trs_pattern.dfy`, `trs_match.dfy`). `match_term` is a method
  that fills the binding map in place. It is proved equal to the function `Match`. Soundness
  and completeness of `Match` are proved against a declarative relation, `Fits`.
- **Rule conditions** (`trs_eval.dfy`): `arithmetic_eval` and
  `evaluate_boolean_matching_term`. Values are integers. A raw-data label is read by a small
  decimal parser (`decimal.dfy`).
- **Building the right-hand side and substitution** (`trs_substitute.dfy`,
  `trs_substitute_lemmas.dfy`). `make_ir_node_from_matching_term` and `substitute` are
  methods on `Ir.Program`. Each is proved against a function: `Build` and `SubstituteSpec`.
  The lemmas about those functions cover:
  - growth: the program only gains nodes, and existing bindings are kept;
  - realization: every built node is an image of its pattern;
  - the two rewiring modes: rewrite in place, or point each parent at the new node.
- **The circuit-saving rule condition** (`trs_circuit.dfy`).
- **The rule-set checker** (`check_ruleset.dfy`). It covers the first-decisive search of
  `check_rule` over a lexicographic product of named orders, and the three order lists.
  `check_ruleset` appears as a fold over groups of rules.
- **The commutative CSE pass** (`cse_commut.dfy`). `ir::Func` appears as a class over a
  term map and a hash-consing index. The operand sort is an in-place array insertion sort.
  The loop of the pass is proved equal to a pure `Pass` function.
- **The kind signatures of the DSL operators** (`ops_overloads.dfy`).
- **The slot-summing helpers of the matrix multiplication benchmark** (`matrix_mul.dfy`).
  Covered: `clog2`, `next_power_of_2`, `sum_all_slots` and `sum_all_slots2`. A ciphertext is
  a symbolic expression: the input, a rotation or a sum. Slot values are defined by cyclic
  rotation.

Errors the source throws, and reads outside a container, become `Err` values of a
`Result`. Where the code does not say the system must reject something, the model does not
add a precondition. The exceptions are listed under "Left out".

Three behaviours of the code are easy to misread, and the model keeps them as written:

- `check_rule` (src/fheco/trs/reduct_order/check_ruleset.cpp:148-155 and 164-165) stops at
  the first order answering `not_generalizable`. It logs that the rule needs a condition,
  then returns. It tries no further order and raises nothing, in either mode. See
  `CheckRuleset.NotGeneralizableReport`.
- An order answering `equal` (check_ruleset.cpp:156-160) only moves the search on to the
  next order. When every order answers `equal`, the rule ends as "unordered"
  (check_ruleset.cpp:167-169), and that verdict raises in throwing mode. A `less` answer
  raises at once in throwing mode (check_ruleset.cpp:142-147), before the separator line.
  See `CheckRuleset.CheckRuleDecides` and `CheckRuleset.SeparatorIffDecidedWithoutThrow`.
- The CSE pass (src/fheco/passes/cse_commut.cpp:19-25) sorts the operands of every
  non-leaf term, whatever its opcode. The code has no commutativity gate.
  `CseCommut.SubtractionReordered` shows a subtraction having its operands swapped.

The guard on the parent slot in `substitute` (src/fheco/trs/trs_core.cpp:334-338) compares
an unsigned index with zero, so it never stops the rewiring. The model uses the corrected
guard; "Findings" row 1 gives both halves.

Predicates that only define a relation (`TrsMatch.Fits`, `TrsCircuit.CircuitSaving`,
`TrsCircuit.AllSaving`, `TrsEval.CallbackFree`) have no row of their own. The rows of the
lemmas that use them state what they mean. `TrsEval.EvaluateBoolean` likewise has no
contract of its own: `EvaluateBooleanDispatch`, `RelationEval`, `Connectives`, `DeMorgan`,
`EvaluateBooleanFuel` and `EvaluateBooleanLocal` state its behaviour case by case.

## Model

| member | source | states |
|---|---|---|
| `Ir.IndexOf` | src/fheco/trs/trs_core.cpp:334 | The position of the first occurrence of a label among a term's operands; absent exactly when the label is not an operand |
| `Ir.RemoveAt` | src/fheco/trs/trs_core.cpp:334 | Deleting operand slot `i` leaves the operands before `i` and those after it, in their order |
| `Ir.InsertAt` | src/fheco/trs/trs_core.cpp:338 | Inserting at index `i` puts the new operand at `i`, with the earlier operands before it and the later ones after it, in their order |
| `Ir.InsertAfterRemove` | src/fheco/trs/trs_core.cpp:334-338 | Deleting operand `i` and inserting a node at `i` overwrites slot `i` and nothing else |
| `Ir.AddParent` | src/fheco/trs/trs_core.cpp:365-366 | Registering a parent changes only the parent lists of the listed operands; `AddParentAppends` states what it appends |
| `Ir.RemoveParent` | src/fheco/trs/trs_core.cpp:326 | Unregistering a parent changes only the parent lists of the listed operands; `RemoveParentRemoves` states what it removes |
| `Ir.RemoveFirst` | src/fheco/trs/trs_core.cpp:326 | Dropping the first occurrence of a label: the list is unchanged when the label is absent, and one shorter otherwise |
| `Ir.RemoveFirstMultiset` | src/fheco/trs/trs_core.cpp:326 | Dropping the first occurrence removes exactly one copy of the label from the multiset of the list |
| `Ir.AddParentAppends` | src/fheco/trs/trs_core.cpp:365-366 | Each operand gets the new parent appended to its parent list once per slot it fills, and a label that is not an operand keeps its list |
| `Ir.RemoveParentRemoves` | src/fheco/trs/trs_core.cpp:326 | Each operand loses one copy of the parent per slot it filled, and no other entry of its parent list |
| `Ir.Arena.FindNode` | src/fheco/trs/trs_core.cpp:330-332 | A lookup finds a node exactly when the program holds the label, and returns that node |
| `Ir.Arena.DeleteOperandTerm` | src/fheco/trs/trs_core.cpp:326 | Removes the first occurrence of the operand and reports its index; no index and no change when the node is absent or does not use it; other nodes keep their opcode and operands |
| `Ir.Arena.AddOperand` | src/fheco/trs/trs_core.cpp:338 | Inserts the operand at the index; the opcode is kept and other nodes keep their opcode and operands |
| `Ir.Arena.RewriteWithOperation` | src/fheco/trs/trs_core.cpp:320-323 | The matched node takes the opcode and operands of the built node, and keeps its label and kind |
| `Ir.Arena.InsertOperationNode` | src/fheco/trs/trs_core.cpp:365-366 | A fresh label holding the given opcode, operands and kind; all existing nodes keep their opcode and operands; the arena stays well formed |
| `Ir.Arena.InsertLeafNode` | src/fheco/trs/trs_core.cpp:399-404 | A fresh label holding a leaf of the given kind with no operands and no parents; nothing else changes |
| `Ir.Arena.InsertConstant` | src/fheco/trs/trs_core.cpp:408-410 | Records the value under the node's label in the constants table; the terms are unchanged |
| `Ir.DeleteOperandParents` | src/fheco/trs/trs_core.cpp:326 | Deleting an operand drops one copy of the node from the operand's parent list and leaves the node's own parents alone |
| `Ir.AddOperandParents` | src/fheco/trs/trs_core.cpp:338 | Adding an operand appends the node to the operand's parent list and leaves the node's own parents alone |
| `Ir.InsertOperationParents` | src/fheco/trs/trs_core.cpp:365-366 | A new operation node is appended to the parent list of each operand once per slot it fills; the new node starts with no other parents |
| `Ir.RewriteParents` | src/fheco/trs/trs_core.cpp:320-323 | Rewriting a node in place removes it from the parent lists of its old operands and adds it to those of its new operands, one copy per slot |
| `Ir.Program.constructor` | src/fheco/trs/trs_core.cpp:311-312 | A program object holding a given well-formed arena |
| `Ir.Program.FindNodeInDataflow` | src/fheco/trs/trs_core.cpp:330 | Returns what the arena lookup returns |
| `Ir.Program.DeleteOperandTerm` | src/fheco/trs/trs_core.cpp:326 | The new state and the returned index are those of the arena operation |
| `Ir.Program.AddOperand` | src/fheco/trs/trs_core.cpp:338 | The new state is that of the arena operation |
| `Ir.Program.RewriteWithOperation` | src/fheco/trs/trs_core.cpp:322 | The new state is that of the arena operation |
| `Ir.Program.InsertOperationNode` | src/fheco/trs/trs_core.cpp:365-366 | The new state and the fresh label are those of the arena operation |
| `Ir.Program.InsertCreatedNode` | src/fheco/trs/trs_core.cpp:399-404 | The new state and the fresh label are those of the arena leaf insertion |
| `Ir.Program.InsertEntryInConstantsTable` | src/fheco/trs/trs_core.cpp:408-410 | The new state is that of the arena constants-table insertion |
| `TrsConst.MappedOpCode` | src/fheco/trs/trs_core.cpp:73 | A pattern opcode without an entry in `opcode_mapping` reads as the IR `undefined` opcode |
| `TrsConst.ValidIrTypes` | src/fheco/trs/trs_core.cpp:50-53 | The IR kinds a pattern kind admits: the singleton from `term_type_map`, the parameterised set for `constant`, nothing for `booleanType` and `opcodeAttribute` |
| `TrsConst.FirstIrType` | src/fheco/trs/trs_core.cpp:399-400 | The kind of a new constant node is some admitted kind, and it exists exactly when the pattern kind admits one |
| `TrsConst.OpcodeMappingShape` | fheco/src/trs/trs_const.hpp:55-70 | Every listed pattern opcode, `undefined` included, goes to the IR opcode of the same name; the map is injective; exactly `assign`, `encrypt`, `rotate_columns`, the comparisons and the connectives are unmapped |
| `TrsConst.TermTypeTablesShape` | fheco/src/trs/trs_const.hpp:50-76 | `term_type_map` covers exactly the four value kinds, injectively; condition kinds are raw data and scalar; the attribute kind is disjoint from them and unmapped |
| `Decimal.DigitChar` | src/fheco/trs/trs_core.cpp:143 | The digit character of a value below ten reads back as that value |
| `Decimal.ShowNatReads` | src/fheco/trs/trs_core.cpp:143 | The numeral of a natural number is a non-empty digit string whose value is the number |
| `Decimal.ParseShow` | src/fheco/trs/trs_core.cpp:143 | Every integer's numeral parses back to the integer |
| `Decimal.ParseIntAccepts` | src/fheco/trs/trs_core.cpp:143 | A label parses exactly when it is digits after an optional leading minus sign |
| `Decimal.ParseInt` | src/fheco/trs/trs_core.cpp:143 | A parsed label is non-empty; a negative value comes only from a leading minus sign, and a label without one is all digits with a non-negative value |
| `TrsPattern.OperandIdsMember` | src/fheco/trs/trs_core.cpp:84-90 | The ids of the operands from index `i` on are the ids of the operand patterns at `j >= i` |
| `TrsMatch.Match` | src/fheco/trs/trs_core.cpp:50-96 | A successful match is of a held node whose kind the pattern admits, and binds the pattern id to that node; a missing node, a kind not admitted, or an id already bound to another node fails and keeps the bindings |
| `TrsMatch.MatchOperands` | src/fheco/trs/trs_core.cpp:84-90 | A successful operand loop has matched only held nodes |
| `TrsMatch.MatchTerm` | src/fheco/trs/trs_core.cpp:24-96 | The in-place matcher's verdict and final binding map are those of `Match`, whose properties are the lemmas below |
| `TrsMatch.MatchIrNode` | src/fheco/trs/trs_core.cpp:13-22 | Starting from an empty map, the bindings are returned exactly when the match succeeds |
| `TrsMatch.MatchGrows` | src/fheco/trs/trs_core.cpp:55-93 | Matching never drops or changes an existing binding, and only binds ids of the pattern |
| `TrsMatch.MatchOperandsGrows` | src/fheco/trs/trs_core.cpp:84-90 | The operand loop never drops or changes a binding, and binds only ids of the remaining operands |
| `TrsMatch.FitsExtends` | src/fheco/trs/trs_core.cpp:55-58 | A pattern that fits a node under some bindings still fits under more bindings |
| `TrsMatch.MatchSound` | src/fheco/trs/trs_core.cpp:50-96 | A successful match yields bindings under which the pattern fits the node: kind, binding, constants-table, opcode and arity checks all hold, recursively |
| `TrsMatch.MatchOperandsSound` | src/fheco/trs/trs_core.cpp:84-90 | When the operand loop succeeds, every remaining operand pattern fits its node under the final bindings |
| `TrsMatch.MatchComplete` | src/fheco/trs/trs_core.cpp:50-96 | If the pattern fits the node under bindings extending the current ones, matching succeeds and its bindings are contained in them |
| `TrsMatch.MatchOperandsComplete` | src/fheco/trs/trs_core.cpp:84-90 | If every remaining operand fits under a common extension, the loop runs to the end without stopping |
| `TrsMatch.MatchIrNodeMeaning` | src/fheco/trs/trs_core.cpp:13-22 | `match_ir_node` succeeds exactly when some bindings make the pattern fit the node, and the bindings it returns are such bindings |
| `TrsEval.ScalarOf` | src/fheco/trs/trs_core.cpp:118-130 | A constant evaluates exactly when it is a scalar, to its value; a vector is an error |
| `TrsEval.LeafValue` | src/fheco/trs/trs_core.cpp:137-160 | A leaf has a value only if it is held and is raw data or a scalar; a scalar with a constants-table entry reads as that constant; any other kind is `EvaluationImpossible` |
| `TrsEval.ArithmeticEval` | src/fheco/trs/trs_core.cpp:100-195 | A value for an operation pattern without a side computation needs `+`, `-` or `*` over two operands; a value for an unbound-value leaf needs its id bound to a held raw-data or scalar node |
| `TrsEval.ArithmeticEvalFunctionFirst` | src/fheco/trs/trs_core.cpp:107-113 | The function table is consulted first: a pattern with a function id and no operand is `MissingOperand`, otherwise it evaluates what the function returns for its first operand |
| `TrsEval.ArithmeticEvalLeaves` | src/fheco/trs/trs_core.cpp:118-160 | A scalar literal evaluates to itself and a vector literal is an error; an unbound leaf is `EvaluationImpossible`; a bound leaf reads its node |
| `TrsEval.RawLeafReadsNumeral` | src/fheco/trs/trs_core.cpp:141-143 | A raw-data node labelled with the numeral of `n` reads as `n`, for every integer `n` |
| `TrsEval.ArithmeticEvalOperation` | src/fheco/trs/trs_core.cpp:165-194 | A non-binary operation is `NotBinary`; otherwise the left error, then the right error, then the sum, difference or product; any other opcode is `UndefinedArithmeticOpcode` |
| `TrsEval.Compare` | src/fheco/trs/trs_core.cpp:278-307 | A comparison has a value exactly for the six relations, and otherwise is `UnsupportedComparison` |
| `TrsEval.EvaluateBooleanDispatch` | src/fheco/trs/trs_core.cpp:198-269 | `_not` negates its operand's value (errors kept) before the function table is consulted; a boolean side computation evaluates what the function returns; no opcode is true, a non-boolean operation false; a boolean non-connective non-relation is `UnsupportedComparison` |
| `TrsEval.OperandIdsWithin` | src/fheco/trs/trs_core.cpp:84-90 | The ids of an operand pattern are among the ids of the pattern |
| `TrsEval.ArithmeticEvalLocal` | src/fheco/trs/trs_core.cpp:100-195 | Without side computations, evaluation reads only the bindings of the pattern's own ids: bindings that agree on them give the same result |
| `TrsEval.EvaluateBooleanLocal` | src/fheco/trs/trs_core.cpp:198-309 | The same for a whole condition |
| `TrsEval.ArithmeticEvalFuel` | src/fheco/trs/trs_core.cpp:107-113 | Once evaluation has not run out of fuel, more fuel gives the same answer: fuel only bounds the side-computation recursion |
| `TrsEval.ArithmeticEvalFuelBinary` | src/fheco/trs/trs_core.cpp:170-194 | The same for a binary arithmetic pattern, from the same fact about its two operands |
| `TrsEval.EvaluateBooleanFuel` | src/fheco/trs/trs_core.cpp:211-228 | The same for condition evaluation |
| `TrsEval.ArithmeticEvalCallbackFree` | src/fheco/trs/trs_core.cpp:100-196 | Without side computations, arithmetic evaluation never runs out of fuel and does not depend on it |
| `TrsEval.EvaluateBooleanCallbackFree` | src/fheco/trs/trs_core.cpp:198-309 | The same for condition evaluation |
| `TrsEval.DeMorgan` | src/fheco/trs/trs_core.cpp:204-209 | `!(a && b)` evaluates as `!a \|\| !b`, errors included, because `_not` negates and the connectives short-circuit |
| `TrsEval.RelationEval` | src/fheco/trs/trs_core.cpp:266-307 | A relation over condition-kind operands evaluates its left then its right side and compares the values; over other kinds it is false |
| `TrsEval.NegatedRelation` | src/fheco/trs/trs_core.cpp:204-209 | Negating a relation is the complementary relation |
| `TrsEval.NegatedRelations` | src/fheco/trs/trs_core.cpp:281-303 | `!(x == y)` is `x != y`, `!(x < y)` is `x >= y` and `!(x > y)` is `x <= y` |
| `TrsEval.ConverseRelations` | src/fheco/trs/trs_core.cpp:281-303 | `x < y` is `y > x`, `x <= y` is `y >= x`, equality is symmetric, and `x < y` is the integer comparison of the evaluated sides |
| `TrsEval.Connectives` | src/fheco/trs/trs_core.cpp:253-261 | `_and` is true exactly when both sides are; `_or` is false exactly when both are; a false left side decides `_and` and a true one decides `_or` |
| `TrsEval.LessThanFiveExample` | src/fheco/trs/trs_core.cpp:141-143 | A raw-data variable bound to the node labelled `3` satisfies `x < 5` |
| `TrsSubstitute.DeduceType` | src/fheco/trs/trs_core.cpp:363 | A new node is a ciphertext exactly when some operand is one; otherwise it takes a kind of its operands or raw data |
| `TrsSubstitute.Build` | src/fheco/trs/trs_core.cpp:343-414 | On success the program stays well formed, keeps all its nodes, holds the returned node, and every binding refers to a node it holds |
| `TrsSubstitute.BuildEarlyExits` | src/fheco/trs/trs_core.cpp:343-396 | A bound id returns its node and changes nothing; an unbound operation pattern whose opcode has no IR opcode fails with `UnsupportedIrOpcode`; an unbound leaf without a value fails with `ConstantExpected` |
| `TrsSubstitute.BuildOperation` | src/fheco/trs/trs_core.cpp:363-386 | The same for the insertion of an operation node and its side computation |
| `TrsSubstitute.SideComputation` | src/fheco/trs/trs_core.cpp:374-386 | The same for the step after insertion; without a function id the inserted node is the result, and an id missing from the function table is an error |
| `TrsSubstitute.BuildConstant` | src/fheco/trs/trs_core.cpp:395-412 | The same for a constant leaf, and the bindings are unchanged |
| `TrsSubstitute.BuildOperands` | src/fheco/trs/trs_core.cpp:357-361 | Builds one node per remaining operand, keeps the accumulated prefix, and every built node is in the program |
| `TrsSubstitute.MakeIrNode` | src/fheco/trs/trs_core.cpp:343-414 | The in-place builder's result, bindings and new program state are those of `Build` |
| `TrsSubstitute.MakeOperands` | src/fheco/trs/trs_core.cpp:357-361 | The operand loop's labels, bindings and new state are those of `BuildOperands` |
| `TrsSubstitute.FinishOperation` | src/fheco/trs/trs_core.cpp:363-386 | Insertion, binding and side computation agree with `BuildOperation` |
| `TrsSubstitute.MakeConstant` | src/fheco/trs/trs_core.cpp:395-412 | Leaf creation and the constants-table entry agree with `BuildConstant` |
| `TrsSubstitute.Redirect` | src/fheco/trs/trs_core.cpp:328-339 | Rewiring keeps the set of nodes, the constants and every opcode |
| `TrsSubstitute.SubstituteSpec` | src/fheco/trs/trs_core.cpp:311-341 | On success the program stays well formed, still holds the matched node, and keeps every node it held |
| `TrsSubstitute.Substitute` | src/fheco/trs/trs_core.cpp:311-341 | The in-place substitution's outcome, bindings and new state are those of `SubstituteSpec` |
| `TrsSubstitute.RedirectParents` | src/fheco/trs/trs_core.cpp:328-339 | The parent loop over a snapshot of the parent list does what `Redirect` describes |
| `TrsSubstitute.RedirectStep` | src/fheco/trs/trs_core.cpp:328-339 | One parent's step: a missing parent is `ParentNotFound`; otherwise the slot of the matched node is refilled with the new node. A parent without the matched node stops with `OperandNotFound`: this is the corrected behaviour of Findings row 1, and `ParentSlotGuardNeverFires` models the code as written |
| `TrsSubstituteLemmas.GrowsTransitive` | src/fheco/trs/trs_core.cpp:357-361 | Growth of the program composes across successive builds |
| `TrsSubstituteLemmas.InsertOperationGrows` | src/fheco/trs/trs_core.cpp:365-366 | Inserting an operation node only adds to the program |
| `TrsSubstituteLemmas.BuildConstantGrows` | src/fheco/trs/trs_core.cpp:399-410 | Creating a constant leaf only adds to the program and keeps the bindings |
| `TrsSubstituteLemmas.BuildGrows` | src/fheco/trs/trs_core.cpp:343-414 | Building never drops or changes a binding or an existing node's structure, and only binds ids of the pattern |
| `TrsSubstituteLemmas.OperationPatternGrows` | src/fheco/trs/trs_core.cpp:352-386 | The same for the operation-pattern branch |
| `TrsSubstituteLemmas.ExtendsPast` | src/fheco/trs/trs_core.cpp:368 | A binding added for a fresh id and then overwritten still keeps the original bindings |
| `TrsSubstituteLemmas.BuildOperationGrows` | src/fheco/trs/trs_core.cpp:363-386 | The insertion and side-computation step only adds to the program and to the bindings |
| `TrsSubstituteLemmas.SideComputationGrows` | src/fheco/trs/trs_core.cpp:374-386 | The side computation only adds to the program and to the bindings |
| `TrsSubstituteLemmas.BuildOperandsGrows` | src/fheco/trs/trs_core.cpp:357-361 | The operand loop only adds to the program and to the bindings |
| `TrsSubstituteLemmas.OperandsRealizeCons` | src/fheco/trs/trs_core.cpp:357-361 | Images of the first operand and of the rest give images of all operands |
| `TrsSubstituteLemmas.RealizesGrows` | src/fheco/trs/trs_core.cpp:357-361 | A node that is an image of a pattern stays one as the program grows |
| `TrsSubstituteLemmas.OperandsRealizeGrows` | src/fheco/trs/trs_core.cpp:357-361 | Operand images stay images as the program grows |
| `TrsSubstituteLemmas.BuildRealizes` | src/fheco/trs/trs_core.cpp:343-414 | For a right-hand side ready to build (each unbound leaf has a value and an admitted kind, each operation a mapped opcode and no side computation, siblings share only matched ids), building succeeds, binds only ids of the pattern, and yields an image of it: a matched id gives its bound node, a leaf a new constant node holding the value, an operation a node with the mapped opcode over images of its operands |
| `TrsSubstituteLemmas.BuildConstantRealizes` | src/fheco/trs/trs_core.cpp:395-412 | A constant leaf builds to a fresh node whose constants-table entry is the pattern's value |
| `TrsSubstituteLemmas.OperationRealizes` | src/fheco/trs/trs_core.cpp:352-386 | An operation pattern builds to a node with the mapped opcode over images of its operands |
| `TrsSubstituteLemmas.BuildOperandsRealizes` | src/fheco/trs/trs_core.cpp:357-361 | The operand loop succeeds and each built operand is an image of its pattern |
| `TrsSubstituteLemmas.NextOperandFresh` | src/fheco/trs/trs_core.cpp:357-361 | Building one operand does not bind ids that a later operand builds afresh |
| `TrsSubstituteLemmas.RedirectFrame` | src/fheco/trs/trs_core.cpp:328-339 | Rewiring changes the operands of the listed parents only |
| `TrsSubstituteLemmas.RedirectParentOnce` | src/fheco/trs/trs_core.cpp:334-338 | A parent listed once has the matched node's slot replaced by the new node at the same index |
| `TrsSubstituteLemmas.RedirectNeedsParents` | src/fheco/trs/trs_core.cpp:330-332 | Rewiring succeeds only if every listed parent exists |
| `TrsSubstituteLemmas.RedirectMissingOperand` | src/fheco/trs/trs_core.cpp:334-338 | Corrected behaviour of Findings row 1: a parent that does not use the matched node stops the rewiring with `OperandNotFound`. The code as written never stops there; see `ParentSlotGuardNeverFires` |
| `TrsSubstituteLemmas.RedirectSucceeds` | src/fheco/trs/trs_core.cpp:328-339 | Rewiring succeeds when the listed parents are distinct, present and use the matched node |
| `TrsSubstituteLemmas.SubstituteInPlace` | src/fheco/trs/trs_core.cpp:320-323 | For an operation root, the matched node keeps its label, kind and parents and takes the root's opcode and operands |
| `TrsSubstituteLemmas.SubstituteSplice` | src/fheco/trs/trs_core.cpp:324-339 | For a leaf root, every recorded parent exists, the matched node drops its first use of the new node, and no other node outside the recorded parents changes its operands |
| `TrsSubstituteLemmas.SubstituteRedirectsParent` | src/fheco/trs/trs_core.cpp:327-339 | For a leaf root, each parent recorded once has its slot of the matched node replaced by the new node |
| `TrsSubstituteLemmas.TwoParentsBuild` | src/fheco/trs/trs_core.cpp:346-350 | In `add(x, c) -> x`, the bound `x` is returned as is, nothing is inserted, and the matched node keeps both parents after dropping `x` |
| `TrsSubstituteLemmas.TwoParentsOk` | src/fheco/trs/trs_core.cpp:324-339 | The rewrite succeeds on a matched node with two parents |
| `TrsSubstituteLemmas.TwoParentsParent` | src/fheco/trs/trs_core.cpp:327-339 | Each of the two parents then uses `x` where it used the matched node |
| `TrsSubstituteLemmas.TwoParentsNode` | src/fheco/trs/trs_core.cpp:326 | The matched node is left with `c` as its only operand |
| `TrsSubstituteLemmas.SpliceTwoParentsExample` | src/fheco/trs/trs_core.cpp:311-341 | The whole rewrite on the two-parent example, stated end to end |
| `TrsSubstituteLemmas.AsSizeT` | src/fheco/trs/trs_core.cpp:334 | Storing an index in a `size_t` keeps indices in range and wraps every value below 2^64 |
| `TrsSubstituteLemmas.ParentSlotGuardNeverFires` | src/fheco/trs/trs_core.cpp:334-336 | As written: when the node is not an operand, the unsigned index is 2^64 - 1, past the operand list, and the `< 0` guard passes it on |
| `TrsSubstituteLemmas.ParentSlotCorrected` | src/fheco/trs/trs_core.cpp:334-338 | As intended and as the model does: a parent that does not use the node is an error, otherwise its slot is rewired |
| `TrsCircuit.CheckRule` | src/fheco/trs/trs_core.cpp:422-447 | Fails only for an unbound id (or a label the program does not hold), and always for an unbound root |
| `TrsCircuit.CheckOperands` | src/fheco/trs/trs_core.cpp:434-444 | The operand loop fails only for the same reasons |
| `TrsCircuit.CheckRuleAccepts` | src/fheco/trs/trs_core.cpp:416-447 | Accepts exactly when every operation sub-pattern is bound to a node that is a leaf or has at most one parent, recursively |
| `TrsCircuit.CheckOperandsAccepts` | src/fheco/trs/trs_core.cpp:434-444 | The same, for the operands from index `i` on |
| `TrsCircuit.CheckRuleRejects` | src/fheco/trs/trs_core.cpp:439-443 | A `false` answer always points at a bound operation sub-node with more than one parent |
| `TrsCircuit.CheckOperandsRejects` | src/fheco/trs/trs_core.cpp:439-443 | The same, for the operand loop |
| `TrsCircuit.NoViolationFailsIffNotSaving` | src/fheco/trs/trs_core.cpp:426-437 | Without a violating sub-node, the checker fails exactly when it does not accept |
| `TrsCircuit.SharedOperandBlocks` | src/fheco/trs/trs_core.cpp:416-420 | Under `add(mul(a, b), c)` with the `mul` node used twice, the checker answers false |
| `CheckRuleset.FirstDecisive` | src/fheco/trs/reduct_order/check_ruleset.cpp:138-166 | The index of the first order not answering `equal`: all before it answer `equal` |
| `CheckRuleset.Lex` | src/fheco/trs/reduct_order/check_ruleset.cpp:138-166 | The product of the orders answers `equal` exactly when every component does; otherwise it answers what some component answers |
| `CheckRuleset.CheckRule` | src/fheco/trs/reduct_order/check_ruleset.cpp:127-170 | The log opens with the rule; a dynamic right-hand side is exactly the `dynamic` verdict; an error is raised only in throwing mode, for a static rule that is rejected or unordered |
| `CheckRuleset.TryOrdersTriesPrefix` | src/fheco/trs/reduct_order/check_ruleset.cpp:138-166 | The orders tried are those of the declared sequence up to and including the first decisive one, in order |
| `CheckRuleset.TriesPrefixEqualStep` | src/fheco/trs/reduct_order/check_ruleset.cpp:138-166 | The same when the first order finds the two sides equal: it is tried and the search moves on |
| `CheckRuleset.TriesPrefixDecided` | src/fheco/trs/reduct_order/check_ruleset.cpp:138-166 | When the first order decides, it is the only one tried |
| `CheckRuleset.Tried` | src/fheco/trs/reduct_order/check_ruleset.cpp:140 | The orders tried, read from the log: none exactly when the log has no "trying order" line, and the first is the one a leading "trying order" line names |
| `CheckRuleset.TriedFromTryingLines` | src/fheco/trs/reduct_order/check_ruleset.cpp:140 | Every name read from the log comes from a "trying order" line of the log |
| `CheckRuleset.SeparatorIffDecidedWithoutThrow` | src/fheco/trs/reduct_order/check_ruleset.cpp:142-166 | The search log ends with the separator line exactly when some order decided and no exception was raised; a throwing `less` ends it early |
| `CheckRuleset.NoTrying` | src/fheco/trs/reduct_order/check_ruleset.cpp:140 | A log without "trying order" lines names no order |
| `CheckRuleset.TriedAppend` | src/fheco/trs/reduct_order/check_ruleset.cpp:140 | The orders tried in two consecutive logs are those of the first followed by those of the second |
| `CheckRuleset.CheckRuleDecides` | src/fheco/trs/reduct_order/check_ruleset.cpp:127-170 | For a static right-hand side, the verdict is that of the lexicographic product; an error is raised exactly in throwing mode when it is `less` or `equal` (rejected or unordered) |
| `CheckRuleset.TryOrdersDecides` | src/fheco/trs/reduct_order/check_ruleset.cpp:138-169 | The same for the search over the orders |
| `CheckRuleset.DynamicRhsSkipped` | src/fheco/trs/reduct_order/check_ruleset.cpp:130-134 | A dynamic right-hand side is reported without consulting any order and never raises |
| `CheckRuleset.NotGeneralizableReport` | src/fheco/trs/reduct_order/check_ruleset.cpp:148-155 | A first decisive `not_generalizable` ends the check without raising in either mode, with a note that depends on whether the rule has a condition |
| `CheckRuleset.LexAppend` | src/fheco/trs/reduct_order/check_ruleset.cpp:138-166 | The product of two order lists consults the second only when the first answers `equal` |
| `CheckRuleset.Names` | src/fheco/trs/reduct_order/check_ruleset.cpp:138 | The component names of an order list, position by position |
| `CheckRuleset.JoinedIsDepthThenCost` | src/fheco/trs/reduct_order/check_ruleset.cpp:12-112 | `joined_order` is `depth_order`'s three components followed by `ops_cost_order`'s twelve |
| `CheckRuleset.JoinedComparesDepthFirst` | src/fheco/trs/reduct_order/check_ruleset.cpp:64-112 | Comparing under `joined_order` is comparing under `depth_order`, then under `ops_cost_order` on a tie |
| `CheckRuleset.OnlyConstOpCountSwapped` | src/fheco/trs/reduct_order/check_ruleset.cpp:47-50 | `const_op_count` is the only component that calls its primitive with the sides swapped |
| `CheckRuleset.CheckRulesFirstError` | src/fheco/trs/reduct_order/check_ruleset.cpp:122-123 | A run over rules raises the error of the first rule that raises, and none if no rule does |
| `CheckRuleset.CheckRules` | src/fheco/trs/reduct_order/check_ruleset.cpp:119-124 | A run over rules raises only in throwing mode, and only if some rule has a static right-hand side |
| `CheckRuleset.CheckGroups` | src/fheco/trs/reduct_order/check_ruleset.cpp:116-125 | Raises only in throwing mode; the log starts with the first group's header |
| `CheckRuleset.CheckRulesetLog` | src/fheco/trs/reduct_order/check_ruleset.cpp:116-125 | The log opens with the rule-set header; raises only in throwing mode |
| `CheckRuleset.CheckGroupsFirstError` | src/fheco/trs/reduct_order/check_ruleset.cpp:116-125 | Checking group by group raises what checking all rules in iteration order raises |
| `CheckRuleset.CheckRulesAppend` | src/fheco/trs/reduct_order/check_ruleset.cpp:119-124 | Over two consecutive runs of rules, the first error is that of the first run if any, else that of the second |
| `CheckRuleset.DiagnosticNeverThrows` | src/fheco/trs/reduct_order/check_ruleset.cpp:116-125 | In diagnostic mode no rule raises |
| `CheckRuleset.MulToSquareAccepted` | src/fheco/trs/reduct_order/check_ruleset.cpp:17-21 | A rule the first cost component ranks `greater` is accepted after trying that component alone |
| `CseCommut.InsertSorted` | src/fheco/passes/cse_commut.cpp:23 | Inserting an id into an ascending list gives an ascending list with one more occurrence of that id |
| `CseCommut.AscendingCons` | src/fheco/passes/cse_commut.cpp:23 | An id no larger than every element of an ascending list can go in front of it |
| `CseCommut.SortSpec` | src/fheco/passes/cse_commut.cpp:23 | The sorted operand list is ascending and a permutation of the original |
| `CseCommut.AscendingUnique` | src/fheco/passes/cse_commut.cpp:23 | Two ascending lists with the same elements are equal: the sort is canonical |
| `CseCommut.SortCanonical` | src/fheco/passes/cse_commut.cpp:22-24 | Two operand lists sort to the same list exactly when they are permutations of each other |
| `CseCommut.SortOperands` | src/fheco/passes/cse_commut.cpp:23 | The in-place sort leaves in the array the canonical sorted permutation of what it held |
| `CseCommut.SwapDown` | src/fheco/passes/cse_commut.cpp:23 | Swapping two adjacent entries changes nothing else and keeps the multiset of entries |
| `CseCommut.SinkLast` | src/fheco/passes/cse_commut.cpp:23 | Sinking one more entry into a sorted prefix extends the sorted prefix and keeps the multiset of entries |
| `CseCommut.Redirect` | src/fheco/passes/cse_commut.cpp:25 | Replacing a term in an operand list keeps the opcode and the length, swaps exactly the slots that held the term, and changes nothing when the term is absent |
| `CseCommut.Graph.Lookup` | src/fheco/passes/cse_commut.cpp:24 | A hash-consing hit names a held term with exactly that opcode and those operands |
| `CseCommut.Graph.InsertOpTerm` | src/fheco/passes/cse_commut.cpp:24 | Returns a term with the given opcode and operands; an existing one leaves the function unchanged; otherwise a fresh id is added and indexed |
| `CseCommut.Graph.ReplaceTermWith` | src/fheco/passes/cse_commut.cpp:25 | Replacing a term by another removes it and turns every use of it into a use of the replacement, slot by slot; no term uses it any more, and a term that did not use it is unchanged |
| `CseCommut.Graph.Visit` | src/fheco/passes/cse_commut.cpp:15-25 | One turn of the loop keeps the function well formed |
| `CseCommut.Pass` | src/fheco/passes/cse_commut.cpp:11-27 | The whole pass keeps the function well formed |
| `CseCommut.InsertCanonicalValid` | src/fheco/passes/cse_commut.cpp:24 | Inserting the sorted operand list of a held term keeps the function well formed |
| `CseCommut.ReplaceValid` | src/fheco/passes/cse_commut.cpp:25 | Replacing a term by a term that does not depend on it keeps the function well formed |
| `CseCommut.VisitCanonicalizes` | src/fheco/passes/cse_commut.cpp:19-25 | After visiting a non-leaf term, its replacement is held, has the same opcode and the operands sorted, as a permutation of the originals; if the replacement is another term, the original is gone and every other term is the old one with the original's uses redirected to the replacement |
| `CseCommut.PermutedDuplicatesMerge` | src/fheco/passes/cse_commut.cpp:22-25 | Once one term is visited, a term with the same opcode over a permutation of its operands is mapped to the same canonical term |
| `CseCommut.PassFixpoint` | src/fheco/passes/cse_commut.cpp:13-25 | On a function whose visited terms are all missing, leaves, or sorted and registered, the pass changes nothing |
| `CseCommut.SubtractionReordered` | src/fheco/passes/cse_commut.cpp:22-23 | The pass has no commutativity gate: `b - a` with `a < b` becomes `a - b` |
| `CseCommut.Func.constructor` | src/fheco/passes/cse_commut.cpp:11 | A function object holding a given term map and index |
| `CseCommut.Func.GetTerm` | src/fheco/passes/cse_commut.cpp:15-17 | Returns the term exactly when the id is held |
| `CseCommut.Func.InsertOpTerm` | src/fheco/passes/cse_commut.cpp:24 | The new state and the returned id are those of the hash-consing insertion |
| `CseCommut.Func.ReplaceTermWith` | src/fheco/passes/cse_commut.cpp:25 | The new state is that of the replacement |
| `CseCommut.RunCseCommut` | src/fheco/passes/cse_commut.cpp:11-27 | The loop over the topologically sorted ids, sorting a copy of each operand list in place, leaves the function as `Pass` describes |
| `OpsOverloads.BinaryResult` | src/fheco/dsl/ops_overloads.hpp:11-57 | `+`, `-` and `*` are declared for all nine pairs of operand kinds |
| `OpsOverloads.AssignResult` | src/fheco/dsl/ops_overloads.hpp:22-65 | A compound assignment, where declared, yields the kind of its left-hand side |
| `OpsOverloads.UnaryResult` | src/fheco/dsl/ops_overloads.hpp:68-118 | Every one-argument operation, where declared, keeps the kind of its argument |
| `OpsOverloads.RotateAssignResult` | src/fheco/dsl/ops_overloads.hpp:79-82 | A rotation assignment, where declared, keeps the kind |
| `OpsOverloads.EncryptResult` | src/fheco/dsl/ops_overloads.hpp:85-86 | `encrypt`, where declared, yields a ciphertext |
| `OpsOverloads.ManyResult` | src/fheco/dsl/ops_overloads.hpp:101-106 | `add_many` and `mul_many`, where declared, keep the element kind |
| `OpsOverloads.SubscriptedWriteDeclared` | src/fheco/dsl/ops_overloads.hpp:92-94 | A subscripted write is declared exactly for a ciphertext into a ciphertext or a plaintext into a plaintext |
| `OpsOverloads.BinaryResultIsJoin` | src/fheco/dsl/ops_overloads.hpp:11-57 | The result kind is the higher of the two: ciphertext iff either operand is one, scalar iff both are scalars, plaintext otherwise |
| `OpsOverloads.BinaryResultSymmetric` | src/fheco/dsl/ops_overloads.hpp:11-19 | The result kind depends neither on the order of the operands nor on the operator |
| `OpsOverloads.CompoundAssignExactlyKindPreserving` | src/fheco/dsl/ops_overloads.hpp:22-65 | A compound assignment is declared exactly when the binary result is the left-hand kind, i.e. when the right-hand kind ranks no higher |
| `OpsOverloads.NegatePreservesKind` | src/fheco/dsl/ops_overloads.hpp:68-70 | Negation is declared for all three kinds and keeps the kind |
| `OpsOverloads.NonScalarOperations` | src/fheco/dsl/ops_overloads.hpp:73-118 | Rotations, their assignments, subscripted read, `square`, `exponentiate`, the reductions and the vector operations are declared exactly for ciphertexts and plaintexts |
| `OpsOverloads.EncryptOnlyPlainData` | src/fheco/dsl/ops_overloads.hpp:85-86 | `encrypt` is declared exactly for non-ciphertexts |
| `OpsOverloads.CiphertextAbsorbs` | src/fheco/dsl/ops_overloads.hpp:11-118 | Every declared operation involving a ciphertext yields a ciphertext |
| `MatrixMul.CyclicSumSplit` | benchmarks/matrix_mul.cpp:64-69 | The cyclic sum of `a + b` slots from `i` is the sum from `i` over `a` slots plus the sum from `i + a` over `b` slots |
| `MatrixMul.CyclicSumMod` | benchmarks/matrix_mul.cpp:67 | A cyclic sum depends on its start only modulo the slot count |
| `MatrixMul.ModOfSuccessor` | benchmarks/matrix_mul.cpp:67 | Stepping one slot on from a reduced index is stepping on and reducing |
| `MatrixMul.ModUnique` | benchmarks/matrix_mul.cpp:67 | A remainder is the unique value in range that differs from the dividend by a multiple |
| `MatrixMul.MulAtLeast` | benchmarks/matrix_mul.cpp:67 | A positive multiple of a positive count is at least the count |
| `MatrixMul.Pow2` | benchmarks/matrix_mul.cpp:58 | Powers of two are positive |
| `MatrixMul.Pow2Monotone` | benchmarks/matrix_mul.cpp:58 | Powers of two grow with the exponent |
| `MatrixMul.FloorLog2` | benchmarks/matrix_mul.cpp:24-32 | Zero for arguments up to 1; otherwise the exponent `r` with `2^r <= x < 2^(r+1)` |
| `MatrixMul.FloorLog2Unique` | benchmarks/matrix_mul.cpp:24-32 | That exponent is unique |
| `MatrixMul.Clog2` | benchmarks/matrix_mul.cpp:24-32 | The halving loop computes the floor of the base-two logarithm (0 for `x <= 1`) |
| `MatrixMul.PopCountOneIffPowerOfTwo` | benchmarks/matrix_mul.cpp:52 | A number has exactly one set bit exactly when it is a power of two |
| `MatrixMul.PopCountPositive` | benchmarks/matrix_mul.cpp:52 | A positive number has a set bit |
| `MatrixMul.NextPow2IsLeastPowerAtLeast` | benchmarks/matrix_mul.cpp:51-59 | For `n >= 1`, the result is a power of two with `n <= r < 2n`: the least power of two not below `n`; for `n = 0` it is 2 |
| `MatrixMul.NextPow2` | benchmarks/matrix_mul.cpp:51-59 | The result is positive and at least the argument |
| `MatrixMul.NextPowerOfTwo` | benchmarks/matrix_mul.cpp:51-59 | The lambda computes `NextPow2`, whose meaning is the lemma above |
| `MatrixMul.SumAllSlots` | benchmarks/matrix_mul.cpp:3-18 | The step loop builds `x` plus the rotations by `vector_size - 1` down to 1 (by 0 only when the size is 1), or the negative-step error |
| `MatrixMul.SumAllSlotsSpec` | benchmarks/matrix_mul.cpp:3-18 | Fails with the negative-step error exactly when the size is below 1; otherwise a sum whose first term is `x` |
| `MatrixMul.RotationChainSlotZero` | benchmarks/matrix_mul.cpp:9-14 | Slot 0 of the running rotation sum is the cyclic sum of the slots it rotated in |
| `MatrixMul.SumAllSlotsSumsSlots` | benchmarks/matrix_mul.cpp:3-18 | For a size of at least 2, slot 0 of the result holds the sum of the first `vector_size` slots |
| `MatrixMul.SingleSlotDoubled` | benchmarks/matrix_mul.cpp:6-16 | As written, a size of 1 puts twice slot 0 into slot 0, which is not the one-slot sum when that slot is non-zero |
| `MatrixMul.SumAllSlotsCorrectedSums` | benchmarks/matrix_mul.cpp:3-18 | Corrected: fails exactly for a size below 1; otherwise slot 0 holds the sum of the first `vector_size` slots |
| `MatrixMul.SumAllSlots2` | benchmarks/matrix_mul.cpp:20-72 | The doubling loop runs `clog2(next_power_of_2(n))` turns with rotation steps 1, 2, 4, …, each adding the rotated running result to itself |
| `MatrixMul.DoublingSumsWindows` | benchmarks/matrix_mul.cpp:64-69 | After `k` turns every slot holds the cyclic sum of the `2^k` slots from it on |
| `MatrixMul.SumAllSlots2SumsSlots` | benchmarks/matrix_mul.cpp:61-69 | For `n >= 1`, slot 0 holds the sum of the first `next_power_of_2(n)` slots, a power of two between `n` and `2n - 1` |

## Left out

- Logging to `clog` and the rule printer are not modelled. `CheckRuleset` keeps a log of
  which orders were tried and what was decided, but not the printed text.
- The primitive orders of `compon_orders.hpp` are not part of this model. Each component is
  a named primitive that the caller supplies as an uninterpreted comparison.
- `ir::Program`, `ir::Term`, `ir::Func` and `ir::deduce_ir_term_type` are not part of this
  model. They are modelled from their uses, and these are assumptions:
  - an arena of labelled terms with parent lists;
  - `deduce_ir_term_type` ranks ciphertext above plaintext above scalar above raw data;
  - `EqualPtr` orders terms by id;
  - `insert_op_term` hash-conses on (opcode, operands);
  - `replace_term_with` redirects every use of the term and removes it. Cascading deletion of
    terms left unused is not modelled.
- `get_top_sorted_terms_ids` is not part of this model. The id sequence is a parameter of
  `CseCommut.RunCseCommut`.
- Shared pointers are modelled as labels. A label the program does not hold gives a
  `DanglingLabel` error, or does not match. The source could not reach that case.
- `double` arithmetic in `arithmetic_eval` is modelled on unbounded integers, with no
  floating-point rounding. `std::stod` on a label is modelled by a decimal integer parser
  (optional minus sign, then digits). A generated (temporary) label never parses.
- Side computations of the function table are total functions supplied by the caller. Fuel
  bounds their recursion (`ArithmeticEval`, `EvaluateBoolean`, `Build`), because the source
  gives no termination argument there. Running out of fuel is a distinct error, and
  `ArithmeticEvalFuel`, `EvaluateBooleanFuel` and the `CallbackFree` lemmas show it never
  changes an answer otherwise.
- The `constant` pattern kind does not appear in `trs_const.hpp`. The IR kinds it admits are
  a parameter of the environment, and the first of them is the kind of a new constant node.
- `operator[]` on a missing key of `opcode_mapping` is read as the IR `undefined` opcode.
- After a thrown error, the methods leave the program state unspecified. The source also
  leaves partial changes in place.
- The idempotence of the whole CSE pass is not proved. `CseCommut.PassFixpoint` proves the
  condition under which a pass changes nothing, and `VisitCanonicalizes` proves that each
  visited term ends in that condition.
- `CseCommut.RunCseCommut` requires a well-formed function: ids below the counter, no term
  among its own operands, operands held. The source relies on `ir::Func` keeping this.
- `MatrixMul.NextPowerOfTwo`: requires `n < 2^30`, so `1 << (clog2(n) + 1)` stays within a
  32-bit `int`. The model does not cover `size_t`-to-`int32_t` truncation or shift overflow
  for larger sizes. The source assumes sizes between 2^10 and 2^16.
- `MatrixMul.SumAllSlots2`: has the same `n < 2^30` restriction, for the same reason.
- `emulate_subscripted_write` returns nothing. It appears as a predicate saying which kind
  pairs are declared.
- Operand kinds of the DSL beyond the three value kinds, and the `exponent` argument of
  `exponentiate`, are not modelled.

## Findings

| source | as written | input that shows it | evidently intended | confidence | as-written member | corrected member |
|---|---|---|---|---|---|---|
| src/fheco/trs/trs_core.cpp:334-336 | The index returned by `delete_operand_term` is stored in a `size_t`, and the guard tests `operand_index < 0`, which an unsigned value never satisfies | A recorded parent that no longer uses the matched node, with the not-found index reported as -1: stored in the `size_t` it reads 2^64 - 1, the guard lets it through, and `add_operand` is called at that position | Stop with the "could not delete child operand" error when the parent does not use the node | not executed | `TrsSubstituteLemmas.ParentSlotGuardNeverFires` | `TrsSubstituteLemmas.ParentSlotCorrected` |
| benchmarks/matrix_mul.cpp:6-16 | With `vector_size = 1` the first rotation is by 0 steps, so the result is `x + x` | `vector_size = 1` and slot 0 holding 5: slot 0 of the result holds 10 instead of 5 | With a single slot, return `x` unchanged | not executed | `MatrixMul.SingleSlotDoubled` | `MatrixMul.SumAllSlotsCorrectedSums` |
