/**
 * Evaluation of rule conditions (`arithmetic_eval` and `evaluate_boolean_matching_term` in
 * src/fheco/trs/trs_core.cpp).
 *
 * Numbers are integers here (the source computes in `double`); a thrown exception or a read
 * outside a container is an `Err`. Side computations of the function table may produce any
 * pattern, so their chain is bounded by `fuel`; everything else recurses on sub-patterns.
 */
module TrsEval {
  import opened Wrappers
  import Ir
  import opened TrsConst
  import opened TrsPattern
  import Decimal

  /** The number a constant stands for in arithmetic: vectors are rejected. */
  function ScalarOf(v: Ir.ConstantValue): (r: Result<int, TrsError>)
    ensures r.Ok? <==> v.ScalarValue?
    ensures r.Ok? ==> r.value == v.value
    ensures r.Err? ==> r.error == VectorArithmetic
  {
    match v
    case ScalarValue(x) => Ok(x)
    case VectorValue(_) => Err(VectorArithmetic)
  }

  /**
   * The value of the IR node a variable is bound to: a raw datum is read from its label, a
   * scalar from its constants-table entry; any other kind cannot be evaluated.
   */
  function LeafValue(l: Ir.Label, g: Ir.Arena): (r: Result<int, TrsError>)
    ensures r.Ok? ==> l in g.terms && g.terms[l].termType in {Ir.RawDataType, Ir.ScalarType}
    ensures l in g.terms && g.terms[l].termType == Ir.ScalarType && l in g.constants ==> r == ScalarOf(g.constants[l])
    ensures l in g.terms && g.terms[l].termType !in {Ir.RawDataType, Ir.ScalarType} ==> r == Err(EvaluationImpossible)
  {
    if l !in g.terms then Err(DanglingLabel)
    else if g.terms[l].termType == Ir.RawDataType then
      match l
      case Named(s) => (match Decimal.ParseInt(s) case Some(n) => Ok(n) case None => Err(InvalidNumber))
      case Temp(_) => Err(InvalidNumber)
    else if g.terms[l].termType == Ir.ScalarType then
      if l !in g.constants then Err(MissingConstant) else ScalarOf(g.constants[l])
    else Err(EvaluationImpossible)
  }

  /**
   * `arithmetic_eval`: a side computation applies to the first operand and the result is
   * evaluated instead; a leaf is its literal value or the value of the node bound to it; an
   * operation needs exactly two operands, evaluates left then right, and must be `add`, `mul`
   * or `sub`.
   */
  function ArithmeticEval(env: Env, fuel: nat, pat: MatchingTerm, m: MatchingMap, g: Ir.Arena): (r: Result<int, TrsError>)
    ensures r.Ok? && pat.functionId !in env.functions && pat.op != Undefined ==>
              pat.op in {Add, Sub, Mul} && |pat.operands| == 2
    ensures r.Ok? && pat.functionId !in env.functions && pat.op == Undefined && pat.value.None? ==>
              pat.id in m && m[pat.id] in g.terms && g.terms[m[pat.id]].termType in {Ir.RawDataType, Ir.ScalarType}
    decreases fuel, pat
  {
    if pat.functionId in env.functions then
      if |pat.operands| == 0 then Err(MissingOperand)
      else if fuel == 0 then Err(OutOfFuel)
      else ArithmeticEval(env, fuel - 1, env.functions[pat.functionId](pat.operands[0], m, g), m, g)
    else if pat.op == Undefined then
      if pat.value.Some? then ScalarOf(pat.value.value)
      else if pat.id !in m then Err(EvaluationImpossible)
      else LeafValue(m[pat.id], g)
    else if |pat.operands| != 2 then Err(NotBinary)
    else
      var x :- ArithmeticEval(env, fuel, pat.operands[0], m, g);
      var y :- ArithmeticEval(env, fuel, pat.operands[1], m, g);
      match pat.op
      case Add => Ok(x + y)
      case Mul => Ok(x * y)
      case Sub => Ok(x - y)
      case _ => Err(UndefinedArithmeticOpcode)
  }

  /** The six relations a condition may use; any other opcode is rejected. */
  function Compare(op: OpCode, x: int, y: int): (r: Result<bool, TrsError>)
    ensures r.Ok? <==> IsRelation(op)
    ensures r.Err? ==> r.error == UnsupportedComparison
  {
    match op
    case Equal => Ok(x == y)
    case NotEqual => Ok(x != y)
    case LessThan => Ok(x < y)
    case LessThanOrEqual => Ok(x <= y)
    case GreaterThan => Ok(x > y)
    case GreaterThanOrEqual => Ok(x >= y)
    case _ => Err(UnsupportedComparison)
  }

  /**
   * `evaluate_boolean_matching_term`, in the source's order: negation first, then a side
   * computation on a boolean pattern, then a pattern without opcode (true), a non-boolean
   * operation (false), the short-circuit connectives, operands of a kind that is not a condition
   * kind (false), and finally a relation between two arithmetic values.
   */
  function EvaluateBoolean(env: Env, fuel: nat, pat: MatchingTerm, m: MatchingMap, g: Ir.Arena): (r: Result<bool, TrsError>)
    decreases fuel, pat
  {
    if pat.op == Not then
      if |pat.operands| == 0 then Err(MissingOperand)
      else
        var b :- EvaluateBoolean(env, fuel, pat.operands[0], m, g);
        Ok(!b)
    else if pat.functionId in env.functions && pat.termType == BooleanType then
      if |pat.operands| == 0 then Err(MissingOperand)
      else if fuel == 0 then Err(OutOfFuel)
      else EvaluateBoolean(env, fuel - 1, env.functions[pat.functionId](pat.operands[0], m, g), m, g)
    else if pat.op == Undefined then Ok(true)
    else if pat.termType != BooleanType then Ok(false)
    else if |pat.operands| < 2 then Err(MissingOperand)
    else
      var lhs, rhs := pat.operands[0], pat.operands[1];
      if pat.op == And then
        var a :- EvaluateBoolean(env, fuel, lhs, m, g);
        if !a then Ok(false) else EvaluateBoolean(env, fuel, rhs, m, g)
      else if pat.op == Or then
        var a :- EvaluateBoolean(env, fuel, lhs, m, g);
        if a then Ok(true) else EvaluateBoolean(env, fuel, rhs, m, g)
      else if lhs.termType !in RewriteConditionTypes || rhs.termType !in RewriteConditionTypes then Ok(false)
      else
        var x :- ArithmeticEval(env, fuel, lhs, m, g);
        var y :- ArithmeticEval(env, fuel, rhs, m, g);
        Compare(pat.op, x, y)
  }

  /**
   * A function-table entry is applied before anything else, whatever the pattern's opcode
   * or value: to its first operand, and the pattern it yields is evaluated instead.
   */
  lemma ArithmeticEvalFunctionFirst(env: Env, fuel: nat, pat: MatchingTerm, m: MatchingMap, g: Ir.Arena)
    requires pat.functionId in env.functions
    ensures |pat.operands| == 0 ==> ArithmeticEval(env, fuel, pat, m, g) == Err(MissingOperand)
    ensures |pat.operands| > 0 && fuel > 0 ==>
              ArithmeticEval(env, fuel, pat, m, g)
                == ArithmeticEval(env, fuel - 1, env.functions[pat.functionId](pat.operands[0], m, g), m, g)
  {
  }

  /**
   * A leaf without side computation: a literal is its scalar value (a vector literal is an
   * error); otherwise the variable must be bound, and the node bound to it is read by
   * `LeafValue`.
   */
  lemma ArithmeticEvalLeaves(env: Env, fuel: nat, pat: MatchingTerm, m: MatchingMap, g: Ir.Arena)
    requires pat.functionId !in env.functions && pat.op == Undefined
    ensures pat.value.Some? && pat.value.value.ScalarValue? ==> ArithmeticEval(env, fuel, pat, m, g) == Ok(pat.value.value.value)
    ensures pat.value.Some? && pat.value.value.VectorValue? ==> ArithmeticEval(env, fuel, pat, m, g) == Err(VectorArithmetic)
    ensures pat.value.None? && pat.id !in m ==> ArithmeticEval(env, fuel, pat, m, g) == Err(EvaluationImpossible)
    ensures pat.value.None? && pat.id in m ==> ArithmeticEval(env, fuel, pat, m, g) == LeafValue(m[pat.id], g)
  {
  }

  /** A raw-data node labelled with the numeral of `n` reads as `n`. */
  lemma RawLeafReadsNumeral(n: int, g: Ir.Arena)
    requires Ir.Named(Decimal.ShowInt(n)) in g.terms && g.terms[Ir.Named(Decimal.ShowInt(n))].termType == Ir.RawDataType
    ensures LeafValue(Ir.Named(Decimal.ShowInt(n)), g) == Ok(n)
  {
    Decimal.ParseShow(n);
  }

  /**
   * An operation without side computation must have two operands; it evaluates the left one,
   * then the right one, stops at the first error, and adds, subtracts or multiplies the
   * values; any other opcode is an error once both sides have a value.
   */
  lemma ArithmeticEvalOperation(env: Env, fuel: nat, pat: MatchingTerm, m: MatchingMap, g: Ir.Arena)
    requires pat.functionId !in env.functions && pat.op != Undefined
    ensures |pat.operands| != 2 ==> ArithmeticEval(env, fuel, pat, m, g) == Err(NotBinary)
    ensures |pat.operands| == 2 ==>
              var x := ArithmeticEval(env, fuel, pat.operands[0], m, g);
              var y := ArithmeticEval(env, fuel, pat.operands[1], m, g);
              var r := ArithmeticEval(env, fuel, pat, m, g);
              && (x.Err? ==> r == Err(x.error))
              && (x.Ok? && y.Err? ==> r == Err(y.error))
              && (x.Ok? && y.Ok? ==>
                    r == match pat.op
                         case Add => Ok(x.value + y.value)
                         case Sub => Ok(x.value - y.value)
                         case Mul => Ok(x.value * y.value)
                         case _ => Err(UndefinedArithmeticOpcode))
  {
  }

  /** `m` and `m'` bind the same ids of `ids` to the same nodes. */
  ghost predicate AgreeOn(m: MatchingMap, m': MatchingMap, ids: set<nat>) {
    forall k :: k in ids ==> (k in m <==> k in m') && (k in m ==> m[k] == m'[k])
  }

  /** The ids of an operand pattern are ids of the pattern. */
  lemma OperandIdsWithin(p: MatchingTerm, j: nat)
    requires j < |p.operands|
    ensures Ids(p.operands[j]) <= Ids(p)
  {
    forall k | k in Ids(p.operands[j])
      ensures k in Ids(p)
    {
      OperandIdsMember(p, 0, k);
    }
  }

  /**
   * Without side computations, a condition's arithmetic reads only the bindings of its own
   * pattern ids: bindings that agree on them give the same result.
   */
  lemma {:induction false} ArithmeticEvalLocal(env: Env, fuel: nat, pat: MatchingTerm, m: MatchingMap, m': MatchingMap, g: Ir.Arena)
    requires CallbackFree(env, pat) && AgreeOn(m, m', Ids(pat))
    ensures ArithmeticEval(env, fuel, pat, m, g) == ArithmeticEval(env, fuel, pat, m', g)
    decreases pat
  {
    if pat.op == Undefined {
      assert pat.id in Ids(pat);
    } else if |pat.operands| == 2 {
      OperandIdsWithin(pat, 0);
      OperandIdsWithin(pat, 1);
      ArithmeticEvalLocal(env, fuel, pat.operands[0], m, m', g);
      ArithmeticEvalLocal(env, fuel, pat.operands[1], m, m', g);
    }
  }

  /** The same locality for a whole condition. */
  lemma {:induction false} EvaluateBooleanLocal(env: Env, fuel: nat, pat: MatchingTerm, m: MatchingMap, m': MatchingMap, g: Ir.Arena)
    requires CallbackFree(env, pat) && AgreeOn(m, m', Ids(pat))
    ensures EvaluateBoolean(env, fuel, pat, m, g) == EvaluateBoolean(env, fuel, pat, m', g)
    decreases pat
  {
    if pat.op == Not {
      if |pat.operands| > 0 {
        OperandIdsWithin(pat, 0);
        EvaluateBooleanLocal(env, fuel, pat.operands[0], m, m', g);
      }
    } else if pat.op != Undefined && pat.termType == BooleanType && |pat.operands| >= 2 {
      OperandIdsWithin(pat, 0);
      OperandIdsWithin(pat, 1);
      if pat.op == And || pat.op == Or {
        EvaluateBooleanLocal(env, fuel, pat.operands[0], m, m', g);
        EvaluateBooleanLocal(env, fuel, pat.operands[1], m, m', g);
      } else {
        ArithmeticEvalLocal(env, fuel, pat.operands[0], m, m', g);
        ArithmeticEvalLocal(env, fuel, pat.operands[1], m, m', g);
      }
    }
  }

  /**
   * The dispatch of `evaluate_boolean_matching_term`: `_not` is handled before the function
   * table, even on a pattern that has a function id; a side computation is taken only for a
   * boolean pattern; then a pattern without opcode is true and a non-boolean operation false;
   * a boolean opcode that is neither a connective nor a relation is an error once both sides
   * have values.
   */
  lemma EvaluateBooleanDispatch(env: Env, fuel: nat, pat: MatchingTerm, m: MatchingMap, g: Ir.Arena)
    ensures pat.op == Not && |pat.operands| > 0 ==>
              var sub := EvaluateBoolean(env, fuel, pat.operands[0], m, g);
              EvaluateBoolean(env, fuel, pat, m, g) == (if sub.Ok? then Ok(!sub.value) else sub)
    ensures pat.op != Not && pat.functionId in env.functions && pat.termType == BooleanType && |pat.operands| > 0 && fuel > 0 ==>
              EvaluateBoolean(env, fuel, pat, m, g)
                == EvaluateBoolean(env, fuel - 1, env.functions[pat.functionId](pat.operands[0], m, g), m, g)
    ensures pat.op != Not && !(pat.functionId in env.functions && pat.termType == BooleanType) ==>
              && (pat.op == Undefined ==> EvaluateBoolean(env, fuel, pat, m, g) == Ok(true))
              && (pat.op != Undefined && pat.termType != BooleanType ==> EvaluateBoolean(env, fuel, pat, m, g) == Ok(false))
    ensures && pat.op !in {Not, And, Or, Undefined} && !IsRelation(pat.op)
            && !(pat.functionId in env.functions) && pat.termType == BooleanType && |pat.operands| >= 2
            && pat.operands[0].termType in RewriteConditionTypes && pat.operands[1].termType in RewriteConditionTypes
            && ArithmeticEval(env, fuel, pat.operands[0], m, g).Ok? && ArithmeticEval(env, fuel, pat.operands[1], m, g).Ok? ==>
              EvaluateBoolean(env, fuel, pat, m, g) == Err(UnsupportedComparison)
  {
  }

  /** No sub-pattern asks for a side computation of the table. */
  predicate CallbackFree(env: Env, pat: MatchingTerm)
    decreases pat
  {
    && pat.functionId !in env.functions
    && forall i :: 0 <= i < |pat.operands| ==> CallbackFree(env, pat.operands[i])
  }

  /** More fuel changes nothing once an evaluation did not run out of it. */
  lemma {:induction false} ArithmeticEvalFuel(env: Env, fuel: nat, more: nat, pat: MatchingTerm, m: MatchingMap, g: Ir.Arena)
    requires fuel <= more && ArithmeticEval(env, fuel, pat, m, g) != Err(OutOfFuel)
    ensures ArithmeticEval(env, more, pat, m, g) == ArithmeticEval(env, fuel, pat, m, g)
    decreases fuel, pat, 1
  {
    if pat.functionId in env.functions {
      if |pat.operands| > 0 {
        var next := env.functions[pat.functionId](pat.operands[0], m, g);
        assert fuel > 0 && ArithmeticEval(env, fuel, pat, m, g) == ArithmeticEval(env, fuel - 1, next, m, g);
        ArithmeticEvalFuel(env, fuel - 1, more - 1, next, m, g);
        assert ArithmeticEval(env, more, pat, m, g) == ArithmeticEval(env, more - 1, next, m, g);
      }
    } else if pat.op != Undefined && |pat.operands| == 2 {
      ArithmeticEvalFuelBinary(env, fuel, more, pat, m, g);
    }
  }

  /** The binary-operation case of `ArithmeticEvalFuel`. */
  lemma {:induction false} ArithmeticEvalFuelBinary(env: Env, fuel: nat, more: nat, pat: MatchingTerm, m: MatchingMap, g: Ir.Arena)
    requires fuel <= more && ArithmeticEval(env, fuel, pat, m, g) != Err(OutOfFuel)
    requires pat.functionId !in env.functions && pat.op != Undefined && |pat.operands| == 2
    ensures ArithmeticEval(env, more, pat, m, g) == ArithmeticEval(env, fuel, pat, m, g)
    decreases fuel, pat, 0
  {
    var x := ArithmeticEval(env, fuel, pat.operands[0], m, g);
    assert x != Err(OutOfFuel);
    ArithmeticEvalFuel(env, fuel, more, pat.operands[0], m, g);
    if x.Ok? {
      assert ArithmeticEval(env, fuel, pat.operands[1], m, g) != Err(OutOfFuel);
      ArithmeticEvalFuel(env, fuel, more, pat.operands[1], m, g);
    }
  }

  lemma {:induction false} EvaluateBooleanFuel(env: Env, fuel: nat, more: nat, pat: MatchingTerm, m: MatchingMap, g: Ir.Arena)
    requires fuel <= more && EvaluateBoolean(env, fuel, pat, m, g) != Err(OutOfFuel)
    ensures EvaluateBoolean(env, more, pat, m, g) == EvaluateBoolean(env, fuel, pat, m, g)
    decreases fuel, pat
  {
    if pat.op == Not {
      if |pat.operands| > 0 {
        EvaluateBooleanFuel(env, fuel, more, pat.operands[0], m, g);
      }
    } else if pat.functionId in env.functions && pat.termType == BooleanType {
      if |pat.operands| > 0 {
        EvaluateBooleanFuel(env, fuel - 1, more - 1, env.functions[pat.functionId](pat.operands[0], m, g), m, g);
      }
    } else if pat.op != Undefined && pat.termType == BooleanType && |pat.operands| >= 2 {
      var lhs, rhs := pat.operands[0], pat.operands[1];
      if pat.op == And || pat.op == Or {
        EvaluateBooleanFuel(env, fuel, more, lhs, m, g);
        var a := EvaluateBoolean(env, fuel, lhs, m, g);
        if a.Ok? && a.value == (pat.op == And) {
          EvaluateBooleanFuel(env, fuel, more, rhs, m, g);
        }
      } else if lhs.termType in RewriteConditionTypes && rhs.termType in RewriteConditionTypes {
        ArithmeticEvalFuel(env, fuel, more, lhs, m, g);
        if ArithmeticEval(env, fuel, lhs, m, g).Ok? {
          ArithmeticEvalFuel(env, fuel, more, rhs, m, g);
        }
      }
    }
  }

  /** Without side computations, an arithmetic evaluation never runs out of fuel. */
  lemma {:induction false} ArithmeticEvalCallbackFree(env: Env, fuel: nat, pat: MatchingTerm, m: MatchingMap, g: Ir.Arena)
    requires CallbackFree(env, pat)
    ensures ArithmeticEval(env, fuel, pat, m, g) != Err(OutOfFuel)
    ensures ArithmeticEval(env, fuel, pat, m, g) == ArithmeticEval(env, 0, pat, m, g)
    decreases pat
  {
    if pat.op != Undefined && |pat.operands| == 2 {
      ArithmeticEvalCallbackFree(env, fuel, pat.operands[0], m, g);
      ArithmeticEvalCallbackFree(env, fuel, pat.operands[1], m, g);
    }
  }

  /** Without side computations, a condition never runs out of fuel. */
  lemma {:induction false} EvaluateBooleanCallbackFree(env: Env, fuel: nat, pat: MatchingTerm, m: MatchingMap, g: Ir.Arena)
    requires CallbackFree(env, pat)
    ensures EvaluateBoolean(env, fuel, pat, m, g) != Err(OutOfFuel)
    ensures EvaluateBoolean(env, fuel, pat, m, g) == EvaluateBoolean(env, 0, pat, m, g)
    decreases pat
  {
    if pat.op == Not {
      if |pat.operands| > 0 {
        EvaluateBooleanCallbackFree(env, fuel, pat.operands[0], m, g);
      }
    } else if pat.op != Undefined && pat.termType == BooleanType && |pat.operands| >= 2 {
      var lhs, rhs := pat.operands[0], pat.operands[1];
      if pat.op == And || pat.op == Or {
        EvaluateBooleanCallbackFree(env, fuel, lhs, m, g);
        EvaluateBooleanCallbackFree(env, fuel, rhs, m, g);
      } else {
        ArithmeticEvalCallbackFree(env, fuel, lhs, m, g);
        ArithmeticEvalCallbackFree(env, fuel, rhs, m, g);
      }
    }
  }

  /** A boolean condition node with the given opcode and operands, without side computation. */
  function Cond(op: OpCode, args: seq<MatchingTerm>): MatchingTerm {
    MatchingTerm(0, op, BooleanType, None, NoFunction, args)
  }

  /**
   * Negating a conjunction evaluates like the disjunction of the negations, errors included:
   * both evaluate the left condition first and look at the right one only when the left one
   * holds.
   */
  lemma DeMorgan(env: Env, fuel: nat, a: MatchingTerm, b: MatchingTerm, m: MatchingMap, g: Ir.Arena)
    requires NoFunction !in env.functions
    ensures EvaluateBoolean(env, fuel, Cond(Not, [Cond(And, [a, b])]), m, g)
         == EvaluateBoolean(env, fuel, Cond(Or, [Cond(Not, [a]), Cond(Not, [b])]), m, g)
  {
    var na := EvaluateBoolean(env, fuel, Cond(Not, [a]), m, g);
    assert na == (match EvaluateBoolean(env, fuel, a, m, g) case Ok(x) => Ok(!x) case Err(e) => Err(e));
    var nb := EvaluateBoolean(env, fuel, Cond(Not, [b]), m, g);
    assert nb == (match EvaluateBoolean(env, fuel, b, m, g) case Ok(x) => Ok(!x) case Err(e) => Err(e));
  }

  /** The opcodes `Compare` accepts. */
  predicate IsRelation(op: OpCode) {
    op in {Equal, NotEqual, LessThan, LessThanOrEqual, GreaterThan, GreaterThanOrEqual}
  }

  /** A relation node evaluates its two sides, left first, and compares the values. */
  lemma RelationEval(env: Env, fuel: nat, op: OpCode, x: MatchingTerm, y: MatchingTerm, m: MatchingMap, g: Ir.Arena)
    requires NoFunction !in env.functions && IsRelation(op)
    ensures EvaluateBoolean(env, fuel, Cond(op, [x, y]), m, g)
         == if x.termType !in RewriteConditionTypes || y.termType !in RewriteConditionTypes then Ok(false)
            else if ArithmeticEval(env, fuel, x, m, g).Err? then Err(ArithmeticEval(env, fuel, x, m, g).error)
            else if ArithmeticEval(env, fuel, y, m, g).Err? then Err(ArithmeticEval(env, fuel, y, m, g).error)
            else Compare(op, ArithmeticEval(env, fuel, x, m, g).value, ArithmeticEval(env, fuel, y, m, g).value)
  {
  }

  /**
   * Negating a relation evaluates like its complement, errors included, since both evaluate
   * the same operands in the same order. This needs both sides to be of a condition kind:
   * otherwise every relation is false, so its negation is true while its complement is false.
   */
  lemma NegatedRelation(env: Env, fuel: nat, op: OpCode, co: OpCode, x: MatchingTerm, y: MatchingTerm, m: MatchingMap, g: Ir.Arena)
    requires NoFunction !in env.functions && IsRelation(op) && IsRelation(co)
    requires x.termType in RewriteConditionTypes && y.termType in RewriteConditionTypes
    requires forall a: int, b: int :: Compare(co, a, b) == Ok(!Compare(op, a, b).value)
    ensures EvaluateBoolean(env, fuel, Cond(Not, [Cond(op, [x, y])]), m, g) == EvaluateBoolean(env, fuel, Cond(co, [x, y]), m, g)
  {
    RelationEval(env, fuel, op, x, y, m, g);
    RelationEval(env, fuel, co, x, y, m, g);
  }

  /** `!(x == y)` is `x != y`, `!(x < y)` is `x >= y` and `!(x > y)` is `x <= y`. */
  lemma NegatedRelations(env: Env, fuel: nat, x: MatchingTerm, y: MatchingTerm, m: MatchingMap, g: Ir.Arena)
    requires NoFunction !in env.functions
    requires x.termType in RewriteConditionTypes && y.termType in RewriteConditionTypes
    ensures EvaluateBoolean(env, fuel, Cond(Not, [Cond(Equal, [x, y])]), m, g) == EvaluateBoolean(env, fuel, Cond(NotEqual, [x, y]), m, g)
    ensures EvaluateBoolean(env, fuel, Cond(Not, [Cond(LessThan, [x, y])]), m, g) == EvaluateBoolean(env, fuel, Cond(GreaterThanOrEqual, [x, y]), m, g)
    ensures EvaluateBoolean(env, fuel, Cond(Not, [Cond(GreaterThan, [x, y])]), m, g) == EvaluateBoolean(env, fuel, Cond(LessThanOrEqual, [x, y]), m, g)
  {
    NegatedRelation(env, fuel, Equal, NotEqual, x, y, m, g);
    NegatedRelation(env, fuel, LessThan, GreaterThanOrEqual, x, y, m, g);
    NegatedRelation(env, fuel, GreaterThan, LessThanOrEqual, x, y, m, g);
  }

  /**
   * A relation read from the other side gives the same answer when both sides evaluate;
   * only which error is reported can differ, as the left side is evaluated first.
   */
  lemma ConverseRelations(env: Env, fuel: nat, x: MatchingTerm, y: MatchingTerm, m: MatchingMap, g: Ir.Arena)
    requires NoFunction !in env.functions
    requires x.termType in RewriteConditionTypes && y.termType in RewriteConditionTypes
    requires ArithmeticEval(env, fuel, x, m, g).Ok? && ArithmeticEval(env, fuel, y, m, g).Ok?
    ensures EvaluateBoolean(env, fuel, Cond(LessThan, [x, y]), m, g) == EvaluateBoolean(env, fuel, Cond(GreaterThan, [y, x]), m, g)
    ensures EvaluateBoolean(env, fuel, Cond(LessThanOrEqual, [x, y]), m, g) == EvaluateBoolean(env, fuel, Cond(GreaterThanOrEqual, [y, x]), m, g)
    ensures EvaluateBoolean(env, fuel, Cond(Equal, [x, y]), m, g) == EvaluateBoolean(env, fuel, Cond(Equal, [y, x]), m, g)
    ensures EvaluateBoolean(env, fuel, Cond(LessThan, [x, y]), m, g) == Ok(ArithmeticEval(env, fuel, x, m, g).value < ArithmeticEval(env, fuel, y, m, g).value)
  {
    RelationEval(env, fuel, LessThan, x, y, m, g);
    RelationEval(env, fuel, GreaterThan, y, x, m, g);
    RelationEval(env, fuel, LessThanOrEqual, x, y, m, g);
    RelationEval(env, fuel, GreaterThanOrEqual, y, x, m, g);
    RelationEval(env, fuel, Equal, x, y, m, g);
    RelationEval(env, fuel, Equal, y, x, m, g);
  }

  /**
   * The truth tables of the connectives: a conjunction holds iff both sides hold and a
   * disjunction fails iff both sides fail; a false left side decides a conjunction and a true
   * one a disjunction, whatever the right side would do.
   */
  lemma Connectives(env: Env, fuel: nat, a: MatchingTerm, b: MatchingTerm, m: MatchingMap, g: Ir.Arena)
    requires NoFunction !in env.functions
    ensures EvaluateBoolean(env, fuel, Cond(And, [a, b]), m, g) == Ok(true)
        <==> EvaluateBoolean(env, fuel, a, m, g) == Ok(true) && EvaluateBoolean(env, fuel, b, m, g) == Ok(true)
    ensures EvaluateBoolean(env, fuel, Cond(Or, [a, b]), m, g) == Ok(false)
        <==> EvaluateBoolean(env, fuel, a, m, g) == Ok(false) && EvaluateBoolean(env, fuel, b, m, g) == Ok(false)
    ensures EvaluateBoolean(env, fuel, a, m, g) == Ok(false) ==> EvaluateBoolean(env, fuel, Cond(And, [a, b]), m, g) == Ok(false)
    ensures EvaluateBoolean(env, fuel, a, m, g) == Ok(true) ==> EvaluateBoolean(env, fuel, Cond(Or, [a, b]), m, g) == Ok(true)
  {
  }

  /**
   * A rule condition `x < 5` where `x` is bound to the raw datum labelled "3" holds; with the
   * datum labelled "7" it does not.
   */
  lemma LessThanFiveExample(env: Env, fuel: nat)
    requires NoFunction !in env.functions
    ensures var x := MatchingTerm(1, Undefined, RawDataType, None, NoFunction, []);
            var five := MatchingTerm(2, Undefined, ScalarType, Some(Ir.ScalarValue(5)), NoFunction, []);
            var raw := Ir.Term(Ir.Undefined, Ir.RawDataType, [], []);
            var g3 := Ir.Arena(map[Ir.Named("3") := raw], map[], 0);
            var g7 := Ir.Arena(map[Ir.Named("7") := raw], map[], 0);
            && EvaluateBoolean(env, fuel, Cond(LessThan, [x, five]), map[1 := Ir.Named("3")], g3) == Ok(true)
            && EvaluateBoolean(env, fuel, Cond(LessThan, [x, five]), map[1 := Ir.Named("7")], g7) == Ok(false)
  {
    assert Decimal.DigitsValue("3") == 3 by {
      assert "3"[..0] == "";
    }
    assert Decimal.DigitsValue("7") == 7 by {
      assert "7"[..0] == "";
    }
  }
}
