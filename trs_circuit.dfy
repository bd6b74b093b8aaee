/**
 * The circuit-saving rule condition (`circuit_saving_condition` and
 * `circuit_saving_condition_rewrite_rule_checker` in src/fheco/trs/trs_core.cpp): a rewrite
 * only saves operations if the matched operation nodes below the root are not shared, so
 * that rewriting them away really removes them.
 */
module TrsCircuit {
  import opened Wrappers
  import Ir
  import opened TrsConst
  import opened TrsPattern

  /** A leaf always qualifies; an operation node qualifies when it has at most one parent. */
  predicate CircuitSaving(t: Ir.Term) {
    t.IsOperationNode() ==> |t.parents| <= 1
  }

  /**
   * `circuit_saving_condition_rewrite_rule_checker`: the root id must be bound; then each
   * non-leaf operand, left to right, must be bound, its node must qualify and the check must
   * hold below it. A node label the program does not hold is reported as `DanglingLabel`.
   */
  function CheckRule(pat: MatchingTerm, m: MatchingMap, g: Ir.Arena): (r: Result<bool, TrsError>)
    ensures r.Err? ==> r.error == MissingMatchedNode || r.error == DanglingLabel
    ensures pat.id !in m ==> r == Err(MissingMatchedNode)
    decreases pat, 1
  {
    if pat.id !in m then Err(MissingMatchedNode) else CheckOperands(pat, 0, m, g)
  }

  /** The operand loop of the checker from index `i` on. */
  function CheckOperands(pat: MatchingTerm, i: nat, m: MatchingMap, g: Ir.Arena): (r: Result<bool, TrsError>)
    ensures r.Err? ==> r.error == MissingMatchedNode || r.error == DanglingLabel
    decreases pat, 0, |pat.operands| - i
  {
    if i >= |pat.operands| then Ok(true)
    else
      var o := pat.operands[i];
      if o.op == Undefined then CheckOperands(pat, i + 1, m, g)
      else if o.id !in m then Err(MissingMatchedNode)
      else if m[o.id] !in g.terms then Err(DanglingLabel)
      else if !CircuitSaving(g.terms[m[o.id]]) then Ok(false)
      else
        match CheckRule(o, m, g)
        case Err(e) => Err(e)
        case Ok(false) => Ok(false)
        case Ok(true) => CheckOperands(pat, i + 1, m, g)
  }

  /** Every operation sub-pattern below `pat` is bound to a node the program holds that qualifies. */
  ghost predicate AllSaving(pat: MatchingTerm, m: MatchingMap, g: Ir.Arena)
    decreases pat
  {
    && pat.id in m
    && forall j :: 0 <= j < |pat.operands| && pat.operands[j].op != Undefined ==>
         && pat.operands[j].id in m
         && m[pat.operands[j].id] in g.terms
         && CircuitSaving(g.terms[m[pat.operands[j].id]])
         && AllSaving(pat.operands[j], m, g)
  }

  /** Some operation sub-pattern below `pat` is bound to a node that does not qualify. */
  ghost predicate Violation(pat: MatchingTerm, m: MatchingMap, g: Ir.Arena)
    decreases pat
  {
    exists j :: && 0 <= j < |pat.operands| && pat.operands[j].op != Undefined
                && pat.operands[j].id in m
                && m[pat.operands[j].id] in g.terms
                && (!CircuitSaving(g.terms[m[pat.operands[j].id]]) || Violation(pat.operands[j], m, g))
  }

  /** The checker accepts exactly when every operation sub-pattern is bound and qualifies. */
  lemma {:induction false} CheckRuleAccepts(pat: MatchingTerm, m: MatchingMap, g: Ir.Arena)
    ensures CheckRule(pat, m, g) == Ok(true) <==> AllSaving(pat, m, g)
    decreases pat, 1
  {
    if pat.id in m {
      CheckOperandsAccepts(pat, 0, m, g);
    }
  }

  lemma {:induction false} CheckOperandsAccepts(pat: MatchingTerm, i: nat, m: MatchingMap, g: Ir.Arena)
    requires i <= |pat.operands|
    ensures CheckOperands(pat, i, m, g) == Ok(true) <==>
              forall j :: i <= j < |pat.operands| && pat.operands[j].op != Undefined ==>
                && pat.operands[j].id in m
                && m[pat.operands[j].id] in g.terms
                && CircuitSaving(g.terms[m[pat.operands[j].id]])
                && AllSaving(pat.operands[j], m, g)
    decreases pat, 0, |pat.operands| - i
  {
    if i < |pat.operands| {
      var o := pat.operands[i];
      CheckOperandsAccepts(pat, i + 1, m, g);
      if o.op != Undefined && o.id in m && m[o.id] in g.terms && CircuitSaving(g.terms[m[o.id]]) {
        CheckRuleAccepts(o, m, g);
      }
    }
  }

  /** A rejection always points at a bound operation node below the root that does not qualify. */
  lemma {:induction false} CheckRuleRejects(pat: MatchingTerm, m: MatchingMap, g: Ir.Arena)
    ensures CheckRule(pat, m, g) == Ok(false) ==> Violation(pat, m, g)
    decreases pat, 1
  {
    if pat.id in m {
      CheckOperandsRejects(pat, 0, m, g);
    }
  }

  lemma {:induction false} CheckOperandsRejects(pat: MatchingTerm, i: nat, m: MatchingMap, g: Ir.Arena)
    ensures CheckOperands(pat, i, m, g) == Ok(false) ==> Violation(pat, m, g)
    decreases pat, 0, |pat.operands| - i
  {
    if i < |pat.operands| {
      var o := pat.operands[i];
      if o.op == Undefined {
        CheckOperandsRejects(pat, i + 1, m, g);
      } else if o.id in m && m[o.id] in g.terms {
        if CircuitSaving(g.terms[m[o.id]]) {
          CheckRuleRejects(o, m, g);
          CheckOperandsRejects(pat, i + 1, m, g);
        }
      }
    }
  }

  /**
   * When no bound operation node below the root fails to qualify, the checker fails exactly
   * when it does not accept: some operation sub-pattern is unbound or its node is unknown.
   */
  lemma NoViolationFailsIffNotSaving(pat: MatchingTerm, m: MatchingMap, g: Ir.Arena)
    requires !Violation(pat, m, g)
    ensures CheckRule(pat, m, g).Err? <==> !AllSaving(pat, m, g)
  {
    CheckRuleAccepts(pat, m, g);
    CheckRuleRejects(pat, m, g);
    var r := CheckRule(pat, m, g);
    assert r.Ok? ==> r == Ok(r.value);
    assert r.Ok? && r.value ==> r == Ok(true);
    assert r.Ok? && !r.value ==> r == Ok(false);
  }

  /**
   * A shared matched operand blocks the rewrite: under `add(mul(a, b), c)` with the `mul`
   * node used twice, the checker answers false.
   */
  lemma SharedOperandBlocks(g: Ir.Arena, root: Ir.Label, inner: Ir.Label, a: Ir.Label, b: Ir.Label, c: Ir.Label, p: Ir.Label, q: Ir.Label)
    requires inner in g.terms && g.terms[inner].op == Ir.Mul && g.terms[inner].parents == [p, q]
    ensures var leaf := (id: nat) => MatchingTerm(id, Undefined, CiphertextType, None, NoFunction, []);
            var pat := MatchingTerm(0, Add, CiphertextType, None, NoFunction, [
                         MatchingTerm(1, Mul, CiphertextType, None, NoFunction, [leaf(2), leaf(3)]), leaf(4)]);
            CheckRule(pat, map[0 := root, 1 := inner, 2 := a, 3 := b, 4 := c], g) == Ok(false)
  {
  }
}
