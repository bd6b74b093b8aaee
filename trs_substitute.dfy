/**
 * Building a rule's right-hand side in the IR and splicing it in place of the matched node
 * (`make_ir_node_from_matching_term` and `substitute` in src/fheco/trs/trs_core.cpp).
 *
 * `Build` and `SubstituteSpec` specify the two operations on the arena; the methods
 * `MakeIrNode` and `Substitute` perform them on a `Program` in place, with the source's loops,
 * and are proved to compute exactly what the specifications say. After an `Err` the program is
 * left as the failing step left it and is not described.
 */
module TrsSubstitute {
  import opened Wrappers
  import Ir
  import opened TrsConst
  import opened TrsPattern

  /** A built node, the bindings after building it and the program that holds it. */
  datatype Built = Built(node: Ir.Label, bindings: MatchingMap, arena: Ir.Arena)

  /** Built operand nodes in order, the bindings after building them and the program. */
  datatype BuiltOperands = BuiltOperands(labels: seq<Ir.Label>, bindings: MatchingMap, arena: Ir.Arena)

  /** Every binding refers to a node the program holds. */
  ghost predicate BindingsIn(m: MatchingMap, g: Ir.Arena) {
    forall k :: k in m ==> m[k] in g.terms
  }

  /**
   * `h` only adds to `g`: no node or constant disappears, and every node keeps its opcode,
   * kind and operands (parent lists may grow).
   */
  ghost predicate Grows(g: Ir.Arena, h: Ir.Arena) {
    && g.nextId <= h.nextId
    && g.terms.Keys <= h.terms.Keys
    && (forall l :: l in g.terms ==> && h.terms[l].op == g.terms[l].op
                                     && h.terms[l].termType == g.terms[l].termType
                                     && h.terms[l].operands == g.terms[l].operands)
    && (forall l :: l in g.constants ==> l in h.constants && h.constants[l] == g.constants[l])
  }

  /** The kinds of the operand nodes the program holds. */
  function KindsOf(g: Ir.Arena, labels: seq<Ir.Label>): set<Ir.TermType> {
    set l | l in labels && l in g.terms :: g.terms[l].termType
  }

  /**
   * The kind of a new operation node from the kinds of its operands: a ciphertext operand
   * makes a ciphertext, otherwise a plaintext one a plaintext, otherwise a scalar one a
   * scalar; raw data otherwise. (`ir::deduce_ir_term_type` is not part of this model; this is
   * the precedence its uses in the rules rely on.)
   */
  function DeduceType(g: Ir.Arena, labels: seq<Ir.Label>): (k: Ir.TermType)
    ensures k == Ir.RawDataType || k in KindsOf(g, labels)
    ensures Ir.CiphertextType in KindsOf(g, labels) <==> k == Ir.CiphertextType
  {
    var ks := KindsOf(g, labels);
    if Ir.CiphertextType in ks then Ir.CiphertextType
    else if Ir.PlaintextType in ks then Ir.PlaintextType
    else if Ir.ScalarType in ks then Ir.ScalarType
    else Ir.RawDataType
  }

  /**
   * `make_ir_node_from_matching_term`. A bound pattern id yields the bound node. An operation
   * pattern needs an IR opcode; its operands are built left to right and the rest is
   * `BuildOperation`. A leaf is `BuildConstant`.
   */
  function Build(env: Env, fuel: nat, pat: MatchingTerm, m: MatchingMap, g: Ir.Arena): (r: Result<Built, TrsError>)
    requires g.Valid() && BindingsIn(m, g)
    ensures r.Ok? ==> && r.value.arena.Valid()
                      && BindingsIn(r.value.bindings, r.value.arena)
                      && g.terms.Keys <= r.value.arena.terms.Keys
                      && r.value.node in r.value.arena.terms
    decreases fuel, pat, 2
  {
    if pat.id in m then Ok(Built(m[pat.id], m, g))
    else if pat.op != Undefined then
      if pat.op !in OpcodeMapping then Err(UnsupportedIrOpcode)
      else
        var ops :- BuildOperands(env, fuel, pat, 0, [], m, g);
        BuildOperation(env, fuel, pat, ops)
    else BuildConstant(env, pat, m, g)
  }

  /**
   * The exits of `Build` that insert nothing: a bound pattern id reuses its node, an opcode
   * without an IR counterpart and a leaf without a value are errors.
   */
  lemma BuildEarlyExits(env: Env, fuel: nat, pat: MatchingTerm, m: MatchingMap, g: Ir.Arena)
    requires g.Valid() && BindingsIn(m, g)
    ensures pat.id in m ==> Build(env, fuel, pat, m, g) == Ok(Built(m[pat.id], m, g))
    ensures pat.id !in m && pat.op != Undefined && pat.op !in OpcodeMapping ==> Build(env, fuel, pat, m, g) == Err(UnsupportedIrOpcode)
    ensures pat.id !in m && pat.op == Undefined && pat.value.None? ==> Build(env, fuel, pat, m, g) == Err(ConstantExpected)
  {
  }

  /**
   * The end of an operation pattern: a node of the deduced kind over the built operands is
   * inserted and bound to the pattern id, then `SideComputation` runs.
   */
  function BuildOperation(env: Env, fuel: nat, pat: MatchingTerm, ops: BuiltOperands): (r: Result<Built, TrsError>)
    requires ops.arena.Valid() && BindingsIn(ops.bindings, ops.arena) && pat.op in OpcodeMapping
    ensures r.Ok? ==> && r.value.arena.Valid()
                      && BindingsIn(r.value.bindings, r.value.arena)
                      && ops.arena.terms.Keys <= r.value.arena.terms.Keys
                      && r.value.node in r.value.arena.terms
    decreases fuel, pat, 1
  {
    var inserted := ops.arena.InsertOperationNode(OpcodeMapping[pat.op], ops.labels, DeduceType(ops.arena, ops.labels));
    SideComputation(env, fuel, pat, inserted.0, ops.bindings[pat.id := inserted.0], inserted.1)
  }

  /**
   * After the node `l` of an operation pattern is inserted and bound: without a function id it
   * is the result; otherwise the function table gives the pattern to build instead, from the
   * current bindings and program, one unit of fuel lower.
   */
  function SideComputation(env: Env, fuel: nat, pat: MatchingTerm, l: Ir.Label, m: MatchingMap, g: Ir.Arena): (r: Result<Built, TrsError>)
    requires g.Valid() && BindingsIn(m, g) && l in g.terms
    ensures r.Ok? ==> && r.value.arena.Valid()
                      && BindingsIn(r.value.bindings, r.value.arena)
                      && g.terms.Keys <= r.value.arena.terms.Keys
                      && r.value.node in r.value.arena.terms
    ensures pat.functionId == NoFunction ==> r == Ok(Built(l, m, g))
    ensures pat.functionId != NoFunction && pat.functionId !in env.functions ==> r == Err(UndefinedFunctionId)
    decreases fuel, pat, 0
  {
    if pat.functionId == NoFunction then Ok(Built(l, m, g))
    else if pat.functionId !in env.functions then Err(UndefinedFunctionId)
    else if fuel == 0 then Err(OutOfFuel)
    else Build(env, fuel - 1, env.functions[pat.functionId](pat, m, g), m, g)
  }

  /**
   * A leaf of the right-hand side needs a value: a fresh node of the first kind its pattern
   * kind admits is inserted with a constants-table entry; it is not bound.
   */
  function BuildConstant(env: Env, pat: MatchingTerm, m: MatchingMap, g: Ir.Arena): (r: Result<Built, TrsError>)
    requires g.Valid() && BindingsIn(m, g)
    ensures r.Ok? ==> && r.value.arena.Valid()
                      && r.value.bindings == m
                      && g.terms.Keys <= r.value.arena.terms.Keys
                      && r.value.node in r.value.arena.terms
    ensures r == Err(ConstantExpected) <==> pat.value.None?
    ensures r == Err(NoIrType) <==> pat.value.Some? && FirstIrType(pat.termType, env.constantTypes).None?
    ensures r.Ok? ==> && r.value.node !in g.terms
                      && r.value.arena.terms == g.terms[r.value.node := Ir.Term(Ir.Undefined, FirstIrType(pat.termType, env.constantTypes).value, [], [])]
                      && r.value.arena.constants == g.constants[r.value.node := pat.value.value]
  {
    if pat.value.None? then Err(ConstantExpected)
    else
      match FirstIrType(pat.termType, env.constantTypes)
      case None => Err(NoIrType)
      case Some(k) =>
        var (l, g2) := g.InsertLeafNode(k);
        Ok(Built(l, m, g2.InsertConstant(l, pat.value.value)))
  }

  /** The operand loop of `make_ir_node_from_matching_term` from index `i` on. */
  function BuildOperands(env: Env, fuel: nat, pat: MatchingTerm, i: nat, acc: seq<Ir.Label>, m: MatchingMap, g: Ir.Arena)
    : (r: Result<BuiltOperands, TrsError>)
    requires g.Valid() && BindingsIn(m, g) && i <= |pat.operands|
    requires forall l :: l in acc ==> l in g.terms
    ensures r.Ok? ==> && r.value.arena.Valid()
                      && BindingsIn(r.value.bindings, r.value.arena)
                      && g.terms.Keys <= r.value.arena.terms.Keys
                      && |r.value.labels| == |acc| + |pat.operands| - i
                      && r.value.labels[..|acc|] == acc
                      && forall l :: l in r.value.labels ==> l in r.value.arena.terms
    decreases fuel, pat, 1, |pat.operands| - i
  {
    if i == |pat.operands| then Ok(BuiltOperands(acc, m, g))
    else
      var b :- Build(env, fuel, pat.operands[i], m, g);
      var r := BuildOperands(env, fuel, pat, i + 1, acc + [b.node], b.bindings, b.arena);
      assert r.Ok? ==> r.value.labels[..|acc|] == (acc + [b.node])[..|acc|];
      r
  }

  /** The method results `r`, `m` and program state `h` are what `spec` describes. */
  predicate Agrees(r: Result<Ir.Label, TrsError>, m: MatchingMap, h: Ir.Arena, spec: Result<Built, TrsError>) {
    match spec
    case Ok(b) => r == Ok(b.node) && m == b.bindings && h == b.arena
    case Err(e) => r == Err(e)
  }

  /** `make_ir_node_from_matching_term` on a program. */
  method MakeIrNode(program: Ir.Program, env: Env, fuel: nat, pat: MatchingTerm, m0: MatchingMap)
    returns (r: Result<Ir.Label, TrsError>, m: MatchingMap)
    requires program.Valid() && BindingsIn(m0, program.Snapshot())
    modifies program
    ensures program.Valid()
    ensures Agrees(r, m, program.Snapshot(), Build(env, fuel, pat, m0, old(program.Snapshot())))
    decreases fuel, pat, 2
  {
    m := m0;
    if pat.id in m {
      return Ok(m[pat.id]), m;
    }
    if pat.op == Undefined {
      r := MakeConstant(program, env, pat, m);
      return;
    }
    if pat.op !in OpcodeMapping {
      return Err(UnsupportedIrOpcode), m;
    }
    var operands;
    operands, m := MakeOperands(program, env, fuel, pat, m);
    if operands.Err? {
      return Err(operands.error), m;
    }
    r, m := FinishOperation(program, env, fuel, pat, operands.value, m);
  }

  /** The operand loop of `make_ir_node_from_matching_term`. */
  method MakeOperands(program: Ir.Program, env: Env, fuel: nat, pat: MatchingTerm, m0: MatchingMap)
    returns (r: Result<seq<Ir.Label>, TrsError>, m: MatchingMap)
    requires program.Valid() && BindingsIn(m0, program.Snapshot())
    modifies program
    ensures program.Valid()
    ensures var spec := BuildOperands(env, fuel, pat, 0, [], m0, old(program.Snapshot()));
            match spec
            case Ok(b) => r == Ok(b.labels) && m == b.bindings && program.Snapshot() == b.arena
            case Err(e) => r == Err(e)
    decreases fuel, pat, 1
  {
    ghost var g0 := program.Snapshot();
    m := m0;
    var operands: seq<Ir.Label> := [];
    var i := 0;
    while i < |pat.operands|
      invariant 0 <= i <= |pat.operands|
      invariant program.Valid() && BindingsIn(m, program.Snapshot())
      invariant forall l :: l in operands ==> l in program.terms
      invariant BuildOperands(env, fuel, pat, 0, [], m0, g0) == BuildOperands(env, fuel, pat, i, operands, m, program.Snapshot())
    {
      var o, m' := MakeIrNode(program, env, fuel, pat.operands[i], m);
      if o.Err? {
        return Err(o.error), m';
      }
      operands, m, i := operands + [o.value], m', i + 1;
    }
    return Ok(operands), m;
  }

  /** The end of an operation pattern: insert, bind, and apply the side computation if any. */
  method FinishOperation(program: Ir.Program, env: Env, fuel: nat, pat: MatchingTerm, operands: seq<Ir.Label>, m0: MatchingMap)
    returns (r: Result<Ir.Label, TrsError>, m: MatchingMap)
    requires program.Valid() && BindingsIn(m0, program.Snapshot()) && pat.op in OpcodeMapping
    modifies program
    ensures program.Valid()
    ensures Agrees(r, m, program.Snapshot(), BuildOperation(env, fuel, pat, BuiltOperands(operands, m0, old(program.Snapshot()))))
    decreases fuel, pat, 0
  {
    ghost var g0 := program.Snapshot();
    var termType := DeduceType(program.Snapshot(), operands);
    var l := program.InsertOperationNode(OpcodeMapping[pat.op], operands, termType);
    ghost var g1 := g0.InsertOperationNode(OpcodeMapping[pat.op], operands, termType).1;
    assert program.Snapshot() == g1;
    m := m0[pat.id := l];
    assert BindingsIn(m, g1) by {
      assert g0.terms.Keys <= g1.terms.Keys;
    }
    ghost var spec := SideComputation(env, fuel, pat, l, m, g1);
    assert BuildOperation(env, fuel, pat, BuiltOperands(operands, m0, g0)) == spec;
    if pat.functionId == NoFunction {
      return Ok(l), m;
    }
    if pat.functionId !in env.functions {
      return Err(UndefinedFunctionId), m;
    }
    if fuel == 0 {
      assert spec == Err(OutOfFuel);
      return Err(OutOfFuel), m;
    }
    var next := env.functions[pat.functionId](pat, m, program.Snapshot());
    assert spec == Build(env, fuel - 1, next, m, g1);
    r, m := MakeIrNode(program, env, fuel - 1, next, m);
  }

  /** A right-hand-side leaf: a fresh node and its constants-table entry. */
  method MakeConstant(program: Ir.Program, env: Env, pat: MatchingTerm, m: MatchingMap) returns (r: Result<Ir.Label, TrsError>)
    requires program.Valid() && BindingsIn(m, program.Snapshot())
    modifies program
    ensures program.Valid()
    ensures Agrees(r, m, program.Snapshot(), BuildConstant(env, pat, m, old(program.Snapshot())))
  {
    if pat.value.None? {
      return Err(ConstantExpected);
    }
    var k := FirstIrType(pat.termType, env.constantTypes);
    if k.None? {
      return Err(NoIrType);
    }
    var l := program.InsertCreatedNode(k.value);
    program.InsertEntryInConstantsTable(l, pat.value.value);
    return Ok(l);
  }

  /**
   * The rewiring loop of `substitute`: every recorded parent, in order, must exist and have
   * `node` as an operand; its first such operand is replaced by `root` at the same position.
   */
  function Redirect(node: Ir.Label, root: Ir.Label, parents: seq<Ir.Label>, g: Ir.Arena): (r: Result<Ir.Arena, TrsError>)
    ensures r.Ok? ==> && r.value.terms.Keys == g.terms.Keys
                      && r.value.constants == g.constants && r.value.nextId == g.nextId
                      && forall l :: l in g.terms ==> r.value.terms[l].op == g.terms[l].op
    decreases |parents|
  {
    if parents == [] then Ok(g)
    else
      var p := parents[0];
      if p !in g.terms then Err(ParentNotFound)
      else
        var (g1, index) := g.DeleteOperandTerm(p, node);
        if index.None? then Err(OperandNotFound)
        else Redirect(node, root, parents[1..], g1.AddOperand(p, root, index.value))
  }

  /**
   * `substitute`: build the right-hand side; an operation root is copied into the matched
   * node in place, which keeps its label, kind and parents; otherwise the matched node stops
   * using the new root as an operand and each of its recorded parents is pointed at the new
   * root instead.
   */
  function SubstituteSpec(env: Env, fuel: nat, node: Ir.Label, rhs: MatchingTerm, m: MatchingMap, g: Ir.Arena)
    : (r: Result<(MatchingMap, Ir.Arena), TrsError>)
    requires g.Valid() && BindingsIn(m, g) && node in g.terms
    ensures r.Ok? ==> r.value.1.Valid() && node in r.value.1.terms && g.terms.Keys <= r.value.1.terms.Keys
  {
    var b :- Build(env, fuel, rhs, m, g);
    var g1 := b.arena;
    if g1.terms[b.node].IsOperationNode() then Ok((b.bindings, g1.RewriteWithOperation(node, b.node)))
    else
      var g2 := g1.DeleteOperandTerm(node, b.node).0;
      var g3 :- Redirect(node, b.node, g2.terms[node].parents, g2);
      Ok((b.bindings, g3))
  }

  /** `substitute` on a program. */
  method Substitute(program: Ir.Program, env: Env, fuel: nat, node: Ir.Label, rhs: MatchingTerm, m0: MatchingMap)
    returns (failure: Option<TrsError>, m: MatchingMap)
    requires program.Valid() && BindingsIn(m0, program.Snapshot()) && node in program.terms
    modifies program
    ensures var spec := SubstituteSpec(env, fuel, node, rhs, m0, old(program.Snapshot()));
            && (failure.None? <==> spec.Ok?)
            && (failure.None? ==> (m, program.Snapshot()) == spec.value)
            && (failure.Some? ==> failure.value == spec.error)
  {
    var built;
    built, m := MakeIrNode(program, env, fuel, rhs, m0);
    if built.Err? {
      return Some(built.error), m;
    }
    var root := built.value;
    if program.terms[root].IsOperationNode() {
      program.RewriteWithOperation(node, root);
      return None, m;
    }
    var _ := program.DeleteOperandTerm(node, root);
    failure := RedirectParents(program, node, root, program.terms[node].parents);
  }

  /** The loop of `substitute` over a copy of the matched node's parent list. */
  method RedirectParents(program: Ir.Program, node: Ir.Label, root: Ir.Label, parents: seq<Ir.Label>)
    returns (failure: Option<TrsError>)
    requires program.Valid()
    modifies program
    ensures var spec := Redirect(node, root, parents, old(program.Snapshot()));
            && (failure.None? <==> spec.Ok?)
            && (failure.None? ==> program.Snapshot() == spec.value)
            && (failure.Some? ==> failure.value == spec.error)
  {
    ghost var g0 := program.Snapshot();
    var k := 0;
    while k < |parents|
      invariant 0 <= k <= |parents|
      invariant program.Valid()
      invariant Redirect(node, root, parents, g0) == Redirect(node, root, parents[k..], program.Snapshot())
    {
      var p := parents[k];
      ghost var g := program.Snapshot();
      RedirectStep(node, root, parents[k..], g);
      assert parents[k..][1..] == parents[k + 1..];
      var found := program.FindNodeInDataflow(p);
      if found.None? {
        return Some(ParentNotFound);
      }
      var index := program.DeleteOperandTerm(p, node);
      if index.None? {
        return Some(OperandNotFound);
      }
      program.AddOperand(p, root, index.value);
      k := k + 1;
    }
    return None;
  }

  /** One turn of the rewiring: the outcome for the first recorded parent. */
  lemma RedirectStep(node: Ir.Label, root: Ir.Label, parents: seq<Ir.Label>, g: Ir.Arena)
    requires parents != []
    ensures parents[0] !in g.terms ==> Redirect(node, root, parents, g) == Err(ParentNotFound)
    ensures parents[0] in g.terms ==>
              var (g1, index) := g.DeleteOperandTerm(parents[0], node);
              && (index.None? ==> Redirect(node, root, parents, g) == Err(OperandNotFound))
              && (index.Some? ==> && parents[0] in g1.terms
                                  && index.value <= |g1.terms[parents[0]].operands|
                                  && Redirect(node, root, parents, g)
                                       == Redirect(node, root, parents[1..], g1.AddOperand(parents[0], root, index.value)))
  {
  }
}
