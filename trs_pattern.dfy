/**
 * The rule-side data model of the rewriting engine: matching terms (patterns), the binding
 * map, the function table of side computations and the errors the engine raises.
 */
module TrsPattern {
  import opened Wrappers
  import Ir
  import opened TrsConst

  /** Identifier of a side computation; `NoFunction` is the source's `FunctionId::undefined`. */
  datatype FunctionId = NoFunction | FunctionRef(index: nat)

  /**
   * A pattern node: its id (the key in the binding map), opcode (`Undefined` for a variable
   * or constant), kind, optional literal value, optional side computation and operands.
   */
  datatype MatchingTerm = MatchingTerm(
    id: nat,
    op: OpCode,
    termType: TermType,
    value: Option<Ir.ConstantValue>,
    functionId: FunctionId,
    operands: seq<MatchingTerm>)

  /** Pattern id to the label of the IR node bound to it. */
  type MatchingMap = map<nat, Ir.Label>

  /** `b` keeps every binding of `m`. */
  ghost predicate Extends(m: MatchingMap, b: MatchingMap) {
    forall k :: k in m ==> k in b && b[k] == m[k]
  }

  /**
   * A side computation of the function table: given a pattern, the bindings and the current
   * program, it yields the pattern to continue with. The callbacks themselves are not part of
   * this model; any total function may stand for one.
   */
  type Callback = (MatchingTerm, MatchingMap, Ir.Arena) -> MatchingTerm

  type FunctionTable = map<FunctionId, Callback>

  /**
   * What the engine is configured with: the function table and the IR kinds that
   * `term_type_map` admits for the `Constant` pattern kind, in iteration order.
   */
  datatype Env = Env(functions: FunctionTable, constantTypes: seq<Ir.TermType>)

  /** The conditions under which the source throws, or reads outside a container. */
  datatype TrsError =
    | EvaluationImpossible      // leaf with neither a value nor a usable binding
    | VectorArithmetic          // a vector constant in arithmetic position
    | NotBinary                 // arithmetic node without exactly two operands
    | UndefinedArithmeticOpcode // arithmetic node other than add, sub, mul
    | UnsupportedComparison     // boolean node with an opcode that is not a relation
    | MissingOperand            // `get_operands()[k]` on a pattern with too few operands
    | InvalidNumber             // raw-data label that is not a numeral
    | MissingConstant           // scalar node without a constants-table entry
    | DanglingLabel             // a bound label that the program does not hold
    | UnsupportedIrOpcode       // right-hand side opcode absent from `opcode_mapping`
    | UndefinedFunctionId       // function id absent from the function table
    | ConstantExpected          // right-hand side leaf without a value
    | NoIrType                  // constant kind that admits no IR kind
    | ParentNotFound            // a recorded parent missing from the program
    | OperandNotFound           // a parent that does not have the matched node as operand
    | MissingMatchedNode        // unbound pattern id in the circuit-saving check
    | OutOfFuel                 // side computations applied more often than the fuel allows

  /** The ids occurring in a pattern. */
  function Ids(p: MatchingTerm): set<nat>
    decreases p, 1
  {
    {p.id} + OperandIds(p, 0)
  }

  /** The ids occurring in the operands of `p` from index `i` on. */
  function OperandIds(p: MatchingTerm, i: nat): set<nat>
    decreases p, 0, |p.operands| - i
  {
    if i >= |p.operands| then {} else Ids(p.operands[i]) + OperandIds(p, i + 1)
  }

  /** The ids of the operands from index `i` on are those of the operands `j >= i`. */
  lemma {:induction false} OperandIdsMember(p: MatchingTerm, i: nat, k: nat)
    ensures k in OperandIds(p, i) <==> exists j :: i <= j < |p.operands| && k in Ids(p.operands[j])
    decreases |p.operands| - i
  {
    if i < |p.operands| {
      OperandIdsMember(p, i + 1, k);
      if k in Ids(p.operands[i]) {
        assert i <= i < |p.operands| && k in Ids(p.operands[i]);
      }
    }
  }

  /**
   * No operation sub-pattern shares its id with a pattern strictly below it. Patterns
   * share ids between leaves (`mul(x, x)`); this forbids only an operation node whose id
   * reappears inside it.
   */
  ghost predicate NestedIdsDistinct(p: MatchingTerm)
    decreases p
  {
    && (p.op != Undefined ==> p.id !in OperandIds(p, 0))
    && forall i :: 0 <= i < |p.operands| ==> NestedIdsDistinct(p.operands[i])
  }
}
