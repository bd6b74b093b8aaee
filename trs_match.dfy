/**
 * Matching a rule's left-hand side against an IR node (`match_ir_node`, `match_term` in
 * src/fheco/trs/trs_core.cpp).
 *
 * `Match` is the specification of one call of `match_term`: the matching map is threaded
 * through as a value (the source mutates it through a reference), and a failed match returns
 * the map as the failing call left it. `Fits` is an independent, declarative reading of what a
 * successful match means; the lemmas relate the two in both directions.
 */
module TrsMatch {
  import opened Wrappers
  import Ir
  import opened TrsConst
  import opened TrsPattern

  datatype MatchResult = MatchResult(matched: bool, bindings: MatchingMap)

  /**
   * One call of `match_term`. The checks come in the source's order: the node's kind must be
   * admitted by the pattern kind, a pattern id already bound must be bound to this node, a
   * `Constant` pattern needs a constants-table entry, a pattern without opcode binds the node,
   * an operation pattern needs the mapped opcode and as many operands, which are matched left
   * to right, and the pattern id is bound to the node once all operands matched. A label the
   * program does not hold never matches (the source holds the node itself, not a label).
   */
  function Match(env: Env, pat: MatchingTerm, node: Ir.Label, m: MatchingMap, g: Ir.Arena): (r: MatchResult)
    ensures r.matched ==> && node in g.terms
                          && g.terms[node].termType in ValidIrTypes(pat.termType, env.constantTypes)
                          && pat.id in r.bindings && r.bindings[pat.id] == node
    ensures (|| node !in g.terms
             || g.terms[node].termType !in ValidIrTypes(pat.termType, env.constantTypes)
             || (pat.id in m && m[pat.id] != node)) ==> r == MatchResult(false, m)
    decreases pat, 1
  {
    if node !in g.terms then MatchResult(false, m)
    else
      var t := g.terms[node];
      if t.termType !in ValidIrTypes(pat.termType, env.constantTypes) then MatchResult(false, m)
      else if pat.id in m && m[pat.id] != node then MatchResult(false, m)
      else if pat.termType == Constant && node !in g.constants then MatchResult(false, m)
      else if pat.op == Undefined then MatchResult(true, m[pat.id := node])
      else if t.op != MappedOpCode(pat.op) then MatchResult(false, m)
      else if |pat.operands| != |t.operands| then MatchResult(false, m)
      else
        var r := MatchOperands(env, pat, t.operands, 0, m, g);
        if r.matched then MatchResult(true, r.bindings[pat.id := node]) else r
  }

  /** The operand loop of `match_term` from index `i` on: stops at the first failing operand. */
  function MatchOperands(env: Env, pat: MatchingTerm, nodes: seq<Ir.Label>, i: nat, m: MatchingMap, g: Ir.Arena): (r: MatchResult)
    requires |nodes| == |pat.operands| && i <= |nodes|
    ensures r.matched ==> forall j :: i <= j < |nodes| ==> nodes[j] in g.terms
    decreases pat, 0, |nodes| - i
  {
    if i == |nodes| then MatchResult(true, m)
    else
      var r := Match(env, pat.operands[i], nodes[i], m, g);
      if !r.matched then r else MatchOperands(env, pat, nodes, i + 1, r.bindings, g)
  }

  /**
   * Declarative meaning of a match: under the bindings `b`, the pattern describes the sub-graph
   * rooted at `node` — kinds admitted, every pattern id bound to the node it stands for,
   * constants present in the constants table, opcodes and operand counts equal.
   */
  ghost predicate Fits(env: Env, pat: MatchingTerm, node: Ir.Label, b: MatchingMap, g: Ir.Arena)
    decreases pat
  {
    && node in g.terms
    && g.terms[node].termType in ValidIrTypes(pat.termType, env.constantTypes)
    && pat.id in b && b[pat.id] == node
    && (pat.termType == Constant ==> node in g.constants)
    && (pat.op != Undefined ==>
          && g.terms[node].op == MappedOpCode(pat.op)
          && |pat.operands| == |g.terms[node].operands|
          && forall i :: 0 <= i < |pat.operands| ==> Fits(env, pat.operands[i], g.terms[node].operands[i], b, g))
  }

  /** `match_term`: the map is passed in and handed back, as the source's reference parameter. */
  method MatchTerm(program: Ir.Program, env: Env, node: Ir.Label, pat: MatchingTerm, m0: MatchingMap)
    returns (ok: bool, m: MatchingMap)
    ensures MatchResult(ok, m) == Match(env, pat, node, m0, program.Snapshot())
    decreases pat
  {
    ghost var g := program.Snapshot();
    m := m0;
    var found := program.FindNodeInDataflow(node);
    if found.None? {
      return false, m;
    }
    var t := found.value;
    if t.termType !in ValidIrTypes(pat.termType, env.constantTypes) {
      return false, m;
    }
    if pat.id in m && m[pat.id] != node {
      return false, m;
    }
    if pat.termType == Constant && node !in program.constants {
      return false, m;
    }
    if pat.op == Undefined {
      m := m[pat.id := node];
      return true, m;
    }
    if t.op != MappedOpCode(pat.op) {
      return false, m;
    }
    if |pat.operands| != |t.operands| {
      return false, m;
    }
    ok := true;
    var i := 0;
    while ok && i < |pat.operands|
      invariant 0 <= i <= |pat.operands|
      invariant ok ==> MatchOperands(env, pat, t.operands, 0, m0, g) == MatchOperands(env, pat, t.operands, i, m, g)
      invariant !ok ==> MatchOperands(env, pat, t.operands, 0, m0, g) == MatchResult(false, m)
    {
      ok, m := MatchTerm(program, env, t.operands[i], pat.operands[i], m);
      if ok {
        i := i + 1;
      }
    }
    if ok {
      m := m[pat.id := node];
    }
  }

  /** `match_ir_node`: match from an empty map; the bindings are returned only on success. */
  method MatchIrNode(program: Ir.Program, env: Env, node: Ir.Label, pat: MatchingTerm)
    returns (r: Option<MatchingMap>)
    ensures r.Some? <==> Match(env, pat, node, map[], program.Snapshot()).matched
    ensures r.Some? ==> r.value == Match(env, pat, node, map[], program.Snapshot()).bindings
  {
    var ok, m := MatchTerm(program, env, node, pat, map[]);
    if ok {
      return Some(m);
    }
    return None;
  }

  /** Matching never drops or changes a binding, and only binds ids of the pattern. */
  lemma {:induction false} MatchGrows(env: Env, pat: MatchingTerm, node: Ir.Label, m: MatchingMap, g: Ir.Arena)
    ensures Extends(m, Match(env, pat, node, m, g).bindings)
    ensures forall k :: k in Match(env, pat, node, m, g).bindings && k !in m ==> k in Ids(pat)
    decreases pat, 1
  {
    if node in g.terms && |pat.operands| == |g.terms[node].operands| {
      MatchOperandsGrows(env, pat, g.terms[node].operands, 0, m, g);
    }
  }

  lemma {:induction false} MatchOperandsGrows(env: Env, pat: MatchingTerm, nodes: seq<Ir.Label>, i: nat, m: MatchingMap, g: Ir.Arena)
    requires |nodes| == |pat.operands| && i <= |nodes|
    ensures Extends(m, MatchOperands(env, pat, nodes, i, m, g).bindings)
    ensures forall k :: k in MatchOperands(env, pat, nodes, i, m, g).bindings && k !in m ==> k in OperandIds(pat, i)
    decreases pat, 0, |nodes| - i
  {
    if i < |nodes| {
      var r := Match(env, pat.operands[i], nodes[i], m, g);
      MatchGrows(env, pat.operands[i], nodes[i], m, g);
      if r.matched {
        MatchOperandsGrows(env, pat, nodes, i + 1, r.bindings, g);
      }
    }
  }

  /** A fit survives adding bindings. */
  lemma {:induction false} FitsExtends(env: Env, pat: MatchingTerm, node: Ir.Label, b: MatchingMap, b': MatchingMap, g: Ir.Arena)
    requires Fits(env, pat, node, b, g) && Extends(b, b')
    ensures Fits(env, pat, node, b', g)
    decreases pat
  {
    if pat.op != Undefined {
      forall i | 0 <= i < |pat.operands|
        ensures Fits(env, pat.operands[i], g.terms[node].operands[i], b', g)
      {
        FitsExtends(env, pat.operands[i], g.terms[node].operands[i], b, b', g);
      }
    }
  }

  /**
   * Soundness: a successful match returns bindings under which the pattern fits the node.
   * It needs that no operation sub-pattern reuses its id below itself, since the source binds
   * the id of an operation pattern after its operands and would overwrite such a binding.
   */
  lemma {:induction false} MatchSound(env: Env, pat: MatchingTerm, node: Ir.Label, m: MatchingMap, g: Ir.Arena)
    requires NestedIdsDistinct(pat)
    ensures Match(env, pat, node, m, g).matched ==> Fits(env, pat, node, Match(env, pat, node, m, g).bindings, g)
    decreases pat, 1
  {
    var r := Match(env, pat, node, m, g);
    if r.matched && pat.op != Undefined {
      var t := g.terms[node];
      var ro := MatchOperands(env, pat, t.operands, 0, m, g);
      MatchOperandsSound(env, pat, t.operands, 0, m, g);
      MatchOperandsGrows(env, pat, t.operands, 0, m, g);
      assert Extends(ro.bindings, r.bindings);
      forall i | 0 <= i < |pat.operands|
        ensures Fits(env, pat.operands[i], t.operands[i], r.bindings, g)
      {
        FitsExtends(env, pat.operands[i], t.operands[i], ro.bindings, r.bindings, g);
      }
    }
  }

  lemma {:induction false} MatchOperandsSound(env: Env, pat: MatchingTerm, nodes: seq<Ir.Label>, i: nat, m: MatchingMap, g: Ir.Arena)
    requires |nodes| == |pat.operands| && i <= |nodes|
    requires forall j :: 0 <= j < |pat.operands| ==> NestedIdsDistinct(pat.operands[j])
    ensures var r := MatchOperands(env, pat, nodes, i, m, g);
            r.matched ==> forall j :: i <= j < |nodes| ==> Fits(env, pat.operands[j], nodes[j], r.bindings, g)
    decreases pat, 0, |nodes| - i
  {
    if i < |nodes| {
      var r1 := Match(env, pat.operands[i], nodes[i], m, g);
      if r1.matched {
        var r := MatchOperands(env, pat, nodes, i + 1, r1.bindings, g);
        MatchSound(env, pat.operands[i], nodes[i], m, g);
        MatchOperandsSound(env, pat, nodes, i + 1, r1.bindings, g);
        MatchOperandsGrows(env, pat, nodes, i + 1, r1.bindings, g);
        if r.matched {
          FitsExtends(env, pat.operands[i], nodes[i], r1.bindings, r.bindings, g);
        }
      }
    }
  }

  /**
   * Completeness: if the pattern fits the node under some bindings `b` that agree with the
   * starting map, the match succeeds and its bindings are part of `b`.
   */
  lemma {:induction false} MatchComplete(env: Env, pat: MatchingTerm, node: Ir.Label, m: MatchingMap, b: MatchingMap, g: Ir.Arena)
    requires Fits(env, pat, node, b, g) && Extends(m, b)
    ensures Match(env, pat, node, m, g).matched
    ensures Extends(Match(env, pat, node, m, g).bindings, b)
    decreases pat, 1
  {
    if pat.op != Undefined {
      MatchOperandsComplete(env, pat, g.terms[node].operands, 0, m, b, g);
    }
  }

  lemma {:induction false} MatchOperandsComplete(env: Env, pat: MatchingTerm, nodes: seq<Ir.Label>, i: nat, m: MatchingMap, b: MatchingMap, g: Ir.Arena)
    requires |nodes| == |pat.operands| && i <= |nodes|
    requires forall j :: i <= j < |nodes| ==> Fits(env, pat.operands[j], nodes[j], b, g)
    requires Extends(m, b)
    ensures MatchOperands(env, pat, nodes, i, m, g).matched
    ensures Extends(MatchOperands(env, pat, nodes, i, m, g).bindings, b)
    decreases pat, 0, |nodes| - i
  {
    if i < |nodes| {
      MatchComplete(env, pat.operands[i], nodes[i], m, b, g);
      MatchOperandsComplete(env, pat, nodes, i + 1, Match(env, pat.operands[i], nodes[i], m, g).bindings, b, g);
    }
  }

  /**
   * `match_ir_node` succeeds exactly when some bindings make the pattern fit the node, and
   * then returns such bindings, binding no id outside the pattern.
   */
  lemma MatchIrNodeMeaning(env: Env, pat: MatchingTerm, node: Ir.Label, g: Ir.Arena)
    requires NestedIdsDistinct(pat)
    ensures Match(env, pat, node, map[], g).matched <==> exists b :: Fits(env, pat, node, b, g)
    ensures Match(env, pat, node, map[], g).matched ==>
              && Fits(env, pat, node, Match(env, pat, node, map[], g).bindings, g)
              && Match(env, pat, node, map[], g).bindings.Keys <= Ids(pat)
  {
    var r := Match(env, pat, node, map[], g);
    MatchSound(env, pat, node, map[], g);
    MatchGrows(env, pat, node, map[], g);
    if r.matched {
      assert Fits(env, pat, node, r.bindings, g);
    }
    if exists b :: Fits(env, pat, node, b, g) {
      var b :| Fits(env, pat, node, b, g);
      MatchComplete(env, pat, node, map[], b, g);
    }
  }
}
