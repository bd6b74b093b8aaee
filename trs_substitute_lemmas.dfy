/**
 * What building a right-hand side and splicing it in guarantee: building only adds to the
 * program; a right-hand side without side computations is built as an image of the pattern
 * (`Realizes`), whose leaves are nodes bound by the match or new constants; splicing points
 * each parent of the matched node at the new root and leaves every other node's operands alone.
 */
module TrsSubstituteLemmas {
  import opened Wrappers
  import Ir
  import opened TrsConst
  import opened TrsPattern
  import opened TrsSubstitute

  lemma GrowsTransitive(g: Ir.Arena, h: Ir.Arena, k: Ir.Arena)
    requires Grows(g, h) && Grows(h, k)
    ensures Grows(g, k)
  {
  }

  lemma InsertOperationGrows(g: Ir.Arena, op: Ir.OpCode, operands: seq<Ir.Label>, termType: Ir.TermType)
    requires g.Valid()
    ensures Grows(g, g.InsertOperationNode(op, operands, termType).1)
  {
  }

  lemma BuildConstantGrows(env: Env, pat: MatchingTerm, m: MatchingMap, g: Ir.Arena)
    requires g.Valid() && BindingsIn(m, g)
    ensures var r := BuildConstant(env, pat, m, g);
            r.Ok? ==> r.value.bindings == m && Grows(g, r.value.arena)
  {
    if pat.value.Some? && FirstIrType(pat.termType, env.constantTypes).Some? {
      var (l, g2) := g.InsertLeafNode(FirstIrType(pat.termType, env.constantTypes).value);
      var g3 := g2.InsertConstant(l, pat.value.value);
      assert Grows(g, g2);
      assert Grows(g2, g3);
      GrowsTransitive(g, g2, g3);
    }
  }

  /** Building never drops or changes a binding, and only adds nodes and constants. */
  lemma {:induction false} BuildGrows(env: Env, fuel: nat, pat: MatchingTerm, m: MatchingMap, g: Ir.Arena)
    requires g.Valid() && BindingsIn(m, g)
    ensures var r := Build(env, fuel, pat, m, g);
            r.Ok? ==> Extends(m, r.value.bindings) && Grows(g, r.value.arena)
    decreases fuel, pat, 2
  {
    if pat.id in m {
    } else if pat.op == Undefined {
      BuildConstantGrows(env, pat, m, g);
    } else if pat.op in OpcodeMapping {
      OperationPatternGrows(env, fuel, pat, m, g);
    }
  }

  /** The operation-pattern branch of `BuildGrows`. */
  lemma {:induction false} OperationPatternGrows(env: Env, fuel: nat, pat: MatchingTerm, m: MatchingMap, g: Ir.Arena)
    requires g.Valid() && BindingsIn(m, g)
    requires pat.id !in m && pat.op != Undefined && pat.op in OpcodeMapping
    ensures var r := Build(env, fuel, pat, m, g);
            r.Ok? ==> Extends(m, r.value.bindings) && Grows(g, r.value.arena)
    decreases fuel, pat, 1, |pat.operands| + 1
  {
    var ops := BuildOperands(env, fuel, pat, 0, [], m, g);
    if ops.Ok? {
      var r := BuildOperation(env, fuel, pat, ops.value);
      assert Build(env, fuel, pat, m, g) == r;
      if r.Ok? {
        BuildOperandsGrows(env, fuel, pat, 0, [], m, g);
        BuildOperationGrows(env, fuel, pat, ops.value);
        GrowsTransitive(g, ops.value.arena, r.value.arena);
        ExtendsPast(m, ops.value.bindings, r.value.bindings, pat.id);
      }
    }
  }

  lemma ExtendsPast(m: MatchingMap, b: MatchingMap, c: MatchingMap, k: nat)
    requires Extends(m, b) && Extends(b - {k}, c) && k !in m
    ensures Extends(m, c)
  {
    forall j | j in m
      ensures j in c && c[j] == m[j]
    {
      assert j in b - {k};
    }
  }

  lemma {:induction false} BuildOperationGrows(env: Env, fuel: nat, pat: MatchingTerm, ops: BuiltOperands)
    requires ops.arena.Valid() && BindingsIn(ops.bindings, ops.arena) && pat.op in OpcodeMapping
    ensures var r := BuildOperation(env, fuel, pat, ops);
            r.Ok? ==> Extends(ops.bindings - {pat.id}, r.value.bindings) && Grows(ops.arena, r.value.arena)
    decreases fuel, pat, 1, 0
  {
    var inserted := ops.arena.InsertOperationNode(OpcodeMapping[pat.op], ops.labels, DeduceType(ops.arena, ops.labels));
    InsertOperationGrows(ops.arena, OpcodeMapping[pat.op], ops.labels, DeduceType(ops.arena, ops.labels));
    var m2 := ops.bindings[pat.id := inserted.0];
    var r := SideComputation(env, fuel, pat, inserted.0, m2, inserted.1);
    assert BuildOperation(env, fuel, pat, ops) == r;
    SideComputationGrows(env, fuel, pat, inserted.0, m2, inserted.1);
    if r.Ok? {
      GrowsTransitive(ops.arena, inserted.1, r.value.arena);
      ExtendsOverwrite(ops.bindings, pat.id, inserted.0, r.value.bindings);
    }
  }

  /** The side computation only adds to the program and to the bindings. */
  lemma {:induction false} SideComputationGrows(env: Env, fuel: nat, pat: MatchingTerm, l: Ir.Label, m: MatchingMap, g: Ir.Arena)
    requires g.Valid() && BindingsIn(m, g) && l in g.terms
    ensures var r := SideComputation(env, fuel, pat, l, m, g);
            r.Ok? ==> Extends(m, r.value.bindings) && Grows(g, r.value.arena)
    decreases fuel, pat, 0
  {
    var r := SideComputation(env, fuel, pat, l, m, g);
    if pat.functionId == NoFunction {
      assert r == Ok(Built(l, m, g));
    } else if pat.functionId !in env.functions || fuel == 0 {
      assert r.Err?;
    } else {
      var next := env.functions[pat.functionId](pat, m, g);
      assert r == Build(env, fuel - 1, next, m, g);
      BuildGrows(env, fuel - 1, next, m, g);
    }
  }

  lemma ExtendsOverwrite(m: MatchingMap, k: nat, l: Ir.Label, c: MatchingMap)
    requires Extends(m[k := l], c)
    ensures Extends(m - {k}, c)
  {
    forall j | j in m - {k}
      ensures j in c && c[j] == m[j]
    {
      assert j in m[k := l] && m[k := l][j] == m[j];
    }
  }

  lemma {:induction false} BuildOperandsGrows(env: Env, fuel: nat, pat: MatchingTerm, i: nat, acc: seq<Ir.Label>, m: MatchingMap, g: Ir.Arena)
    requires g.Valid() && BindingsIn(m, g) && i <= |pat.operands|
    requires forall l :: l in acc ==> l in g.terms
    ensures var r := BuildOperands(env, fuel, pat, i, acc, m, g);
            r.Ok? ==> Extends(m, r.value.bindings) && Grows(g, r.value.arena)
    decreases fuel, pat, 1, |pat.operands| - i
  {
    if i < |pat.operands| {
      var b := Build(env, fuel, pat.operands[i], m, g);
      if b.Ok? {
        var r := BuildOperands(env, fuel, pat, i + 1, acc + [b.value.node], b.value.bindings, b.value.arena);
        assert BuildOperands(env, fuel, pat, i, acc, m, g) == r;
        if r.Ok? {
          BuildGrows(env, fuel, pat.operands[i], m, g);
          BuildOperandsGrows(env, fuel, pat, i + 1, acc + [b.value.node], b.value.bindings, b.value.arena);
          GrowsTransitive(g, b.value.arena, r.value.arena);
        }
      }
    }
  }

  /**
   * `node` is an image of the right-hand side `pat` in `g`: an id bound by the match stands
   * for its bound node; a leaf is a constant node of the first admitted kind holding the
   * pattern's value; an operation is a node with the mapped opcode whose operands are images of
   * the sub-patterns. So the leaves of the image are matched nodes or new constants.
   */
  ghost predicate Realizes(env: Env, pat: MatchingTerm, node: Ir.Label, m0: MatchingMap, g: Ir.Arena)
    decreases pat
  {
    if pat.id in m0 then m0[pat.id] == node
    else if pat.op == Undefined then
      && pat.value.Some?
      && node in g.terms && g.terms[node].op == Ir.Undefined && g.terms[node].operands == []
      && Some(g.terms[node].termType) == FirstIrType(pat.termType, env.constantTypes)
      && node in g.constants && g.constants[node] == pat.value.value
    else
      && node in g.terms && g.terms[node].op == MappedOpCode(pat.op)
      && OperandsRealize(env, pat.operands, g.terms[node].operands, m0, g)
  }

  /** Each node of `labels` is an image of the pattern at the same position. */
  ghost predicate OperandsRealize(env: Env, pats: seq<MatchingTerm>, labels: seq<Ir.Label>, m0: MatchingMap, g: Ir.Arena)
    decreases pats, 0
  {
    && |labels| == |pats|
    && forall i :: 0 <= i < |pats| ==> Realizes(env, pats[i], labels[i], m0, g)
  }

  lemma OperandsRealizeCons(env: Env, pats: seq<MatchingTerm>, labels: seq<Ir.Label>, m0: MatchingMap, g: Ir.Arena)
    requires |pats| > 0 && |labels| > 0
    requires Realizes(env, pats[0], labels[0], m0, g) && OperandsRealize(env, pats[1..], labels[1..], m0, g)
    ensures OperandsRealize(env, pats, labels, m0, g)
  {
    forall i | 0 < i < |pats|
      ensures Realizes(env, pats[i], labels[i], m0, g)
    {
      assert pats[i] == pats[1..][i - 1] && labels[i] == labels[1..][i - 1];
    }
  }

  /** An image stays an image as the program grows. */
  lemma {:induction false} RealizesGrows(env: Env, pat: MatchingTerm, node: Ir.Label, m0: MatchingMap, g: Ir.Arena, h: Ir.Arena)
    requires Realizes(env, pat, node, m0, g) && Grows(g, h)
    ensures Realizes(env, pat, node, m0, h)
    decreases pat, 1
  {
    if pat.id !in m0 && pat.op != Undefined {
      OperandsRealizeGrows(env, pat.operands, g.terms[node].operands, m0, g, h);
    }
  }

  lemma {:induction false} OperandsRealizeGrows(env: Env, pats: seq<MatchingTerm>, labels: seq<Ir.Label>, m0: MatchingMap, g: Ir.Arena, h: Ir.Arena)
    requires OperandsRealize(env, pats, labels, m0, g) && Grows(g, h)
    ensures OperandsRealize(env, pats, labels, m0, h)
    decreases pats, 0
  {
    forall i | 0 <= i < |pats|
      ensures Realizes(env, pats[i], labels[i], m0, h)
    {
      RealizesGrows(env, pats[i], labels[i], m0, g, h);
    }
  }

  /**
   * A right-hand side that can be built from the match bindings `m0`: every leaf not bound by
   * the match has a value and a kind that admits an IR kind, every operation has an IR opcode
   * and no side computation, and sibling sub-patterns share only ids bound by the match.
   */
  ghost predicate RhsReady(env: Env, pat: MatchingTerm, m0: MatchingMap)
    decreases pat
  {
    if pat.id in m0 then true
    else if pat.op == Undefined then pat.value.Some? && FirstIrType(pat.termType, env.constantTypes).Some?
    else
      && pat.op in OpcodeMapping && pat.functionId == NoFunction
      && (forall i, j :: 0 <= i < j < |pat.operands| ==> Ids(pat.operands[i]) * Ids(pat.operands[j]) <= m0.Keys)
      && forall i :: 0 <= i < |pat.operands| ==> RhsReady(env, pat.operands[i], m0)
  }

  /**
   * A ready right-hand side always builds, into an image of itself, binding only its own ids.
   * `m` is the map at the time of the call: it holds the match bindings `m0` and binds no id of
   * `pat` beyond them.
   */
  lemma {:induction false} BuildRealizes(env: Env, fuel: nat, pat: MatchingTerm, m0: MatchingMap, m: MatchingMap, g: Ir.Arena)
    requires g.Valid() && BindingsIn(m, g) && Extends(m0, m)
    requires forall k :: k in Ids(pat) && k in m ==> k in m0
    requires RhsReady(env, pat, m0)
    ensures Build(env, fuel, pat, m, g).Ok?
    ensures var b := Build(env, fuel, pat, m, g).value;
            && Realizes(env, pat, b.node, m0, b.arena)
            && forall k :: k in b.bindings && k !in m ==> k in Ids(pat)
    decreases fuel, pat, 2
  {
    assert pat.id in Ids(pat);
    if pat.id in m {
    } else if pat.op == Undefined {
      BuildConstantRealizes(env, pat, m0, m, g);
    } else {
      OperationRealizes(env, fuel, pat, m0, m, g);
    }
  }

  lemma BuildConstantRealizes(env: Env, pat: MatchingTerm, m0: MatchingMap, m: MatchingMap, g: Ir.Arena)
    requires g.Valid() && BindingsIn(m, g) && pat.id !in m0
    requires pat.op == Undefined && pat.value.Some? && FirstIrType(pat.termType, env.constantTypes).Some?
    ensures BuildConstant(env, pat, m, g).Ok?
    ensures var b := BuildConstant(env, pat, m, g).value;
            Realizes(env, pat, b.node, m0, b.arena) && b.bindings == m
  {
  }

  /** The operation-pattern branch of `BuildRealizes`. */
  lemma {:induction false} OperationRealizes(env: Env, fuel: nat, pat: MatchingTerm, m0: MatchingMap, m: MatchingMap, g: Ir.Arena)
    requires g.Valid() && BindingsIn(m, g) && Extends(m0, m)
    requires forall k :: k in Ids(pat) && k in m ==> k in m0
    requires pat.id !in m && pat.op != Undefined && RhsReady(env, pat, m0)
    ensures Build(env, fuel, pat, m, g).Ok?
    ensures var b := Build(env, fuel, pat, m, g).value;
            && Realizes(env, pat, b.node, m0, b.arena)
            && forall k :: k in b.bindings && k !in m ==> k in Ids(pat)
    decreases fuel, pat, 1, |pat.operands| + 1
  {
    assert Ids(pat) == {pat.id} + OperandIds(pat, 0);
    BuildOperandsRealizes(env, fuel, pat, 0, [], m0, m, g);
    var ops := BuildOperands(env, fuel, pat, 0, [], m, g).value;
    var inserted := ops.arena.InsertOperationNode(OpcodeMapping[pat.op], ops.labels, DeduceType(ops.arena, ops.labels));
    var l, g2 := inserted.0, inserted.1;
    InsertOperationGrows(ops.arena, OpcodeMapping[pat.op], ops.labels, DeduceType(ops.arena, ops.labels));
    assert Build(env, fuel, pat, m, g) == Ok(Built(l, ops.bindings[pat.id := l], g2));
    assert pat.operands[0..] == pat.operands && ops.labels[0..] == ops.labels;
    OperandsRealizeGrows(env, pat.operands, ops.labels, m0, ops.arena, g2);
  }

  lemma {:induction false} BuildOperandsRealizes(env: Env, fuel: nat, pat: MatchingTerm, i: nat, acc: seq<Ir.Label>, m0: MatchingMap, m: MatchingMap, g: Ir.Arena)
    requires g.Valid() && BindingsIn(m, g) && i <= |pat.operands|
    requires forall l :: l in acc ==> l in g.terms
    requires Extends(m0, m)
    requires forall k :: k in OperandIds(pat, i) && k in m ==> k in m0
    requires forall j :: i <= j < |pat.operands| ==> RhsReady(env, pat.operands[j], m0)
    requires forall j, j' :: i <= j < j' < |pat.operands| ==> Ids(pat.operands[j]) * Ids(pat.operands[j']) <= m0.Keys
    ensures BuildOperands(env, fuel, pat, i, acc, m, g).Ok?
    ensures var r := BuildOperands(env, fuel, pat, i, acc, m, g).value;
            && OperandsRealize(env, pat.operands[i..], r.labels[|acc|..], m0, r.arena)
            && forall k :: k in r.bindings && k !in m ==> k in OperandIds(pat, i)
    decreases fuel, pat, 1, |pat.operands| - i
  {
    if i < |pat.operands| {
      assert OperandIds(pat, i) == Ids(pat.operands[i]) + OperandIds(pat, i + 1);
      BuildRealizes(env, fuel, pat.operands[i], m0, m, g);
      var b := Build(env, fuel, pat.operands[i], m, g).value;
      BuildGrows(env, fuel, pat.operands[i], m, g);
      NextOperandFresh(pat, i, m0, m, b.bindings);
      BuildOperandsRealizes(env, fuel, pat, i + 1, acc + [b.node], m0, b.bindings, b.arena);
      var r := BuildOperands(env, fuel, pat, i + 1, acc + [b.node], b.bindings, b.arena).value;
      assert BuildOperands(env, fuel, pat, i, acc, m, g).value == r;
      BuildOperandsGrows(env, fuel, pat, i + 1, acc + [b.node], b.bindings, b.arena);
      assert r.labels[|acc|] == r.labels[..|acc| + 1][|acc|];
      RealizesGrows(env, pat.operands[i], b.node, m0, b.arena, r.arena);
      assert pat.operands[i..][1..] == pat.operands[i + 1..];
      assert r.labels[|acc|..][1..] == r.labels[|acc| + 1..];
      OperandsRealizeCons(env, pat.operands[i..], r.labels[|acc|..], m0, r.arena);
    }
  }

  /**
   * After operand `i` is built, the later operands' ids still bound are match bindings: an id
   * the build of operand `i` bound is shared with a later sibling only if the match bound it.
   */
  lemma NextOperandFresh(pat: MatchingTerm, i: nat, m0: MatchingMap, m: MatchingMap, b: MatchingMap)
    requires i < |pat.operands|
    requires OperandIds(pat, i) == Ids(pat.operands[i]) + OperandIds(pat, i + 1)
    requires forall k :: k in OperandIds(pat, i) && k in m ==> k in m0
    requires forall k :: k in b && k !in m ==> k in Ids(pat.operands[i])
    requires forall j, j' :: i <= j < j' < |pat.operands| ==> Ids(pat.operands[j]) * Ids(pat.operands[j']) <= m0.Keys
    ensures forall k :: k in OperandIds(pat, i + 1) && k in b ==> k in m0
  {
    forall k | k in OperandIds(pat, i + 1) && k in b
      ensures k in m0
    {
      if k !in m {
        OperandIdsMember(pat, i + 1, k);
        var j :| i + 1 <= j < |pat.operands| && k in Ids(pat.operands[j]);
        assert k in Ids(pat.operands[i]) * Ids(pat.operands[j]);
      }
    }
  }

  /** Rewiring changes only the operands of the listed parents. */
  lemma {:induction false} RedirectFrame(node: Ir.Label, root: Ir.Label, parents: seq<Ir.Label>, g: Ir.Arena)
    ensures var r := Redirect(node, root, parents, g);
            r.Ok? ==> forall l :: l in g.terms && l !in parents ==> r.value.terms[l].operands == g.terms[l].operands
    decreases |parents|
  {
    if parents != [] && parents[0] in g.terms {
      var p := parents[0];
      var (g1, index) := g.DeleteOperandTerm(p, node);
      if index.Some? {
        var g2 := g1.AddOperand(p, root, index.value);
        RedirectFrame(node, root, parents[1..], g2);
        forall l | l in g.terms && l !in parents
          ensures l in g2.terms && l !in parents[1..] && g2.terms[l].operands == g.terms[l].operands
        {
          assert l != p;
          assert parents == [p] + parents[1..];
        }
      }
    }
  }

  /**
   * A parent listed once, other than the matched node and the new root, ends up with the new
   * root in the position where it had the matched node first.
   */
  lemma {:induction false} RedirectParentOnce(node: Ir.Label, root: Ir.Label, parents: seq<Ir.Label>, g: Ir.Arena, p: Ir.Label)
    requires multiset(parents)[p] == 1 && p != node && p != root
    ensures var r := Redirect(node, root, parents, g);
            r.Ok? ==> && p in g.terms && node in g.terms[p].operands
                      && r.value.terms[p].operands == g.terms[p].operands[Ir.IndexOf(g.terms[p].operands, node).value := root]
    decreases |parents|
  {
    assert parents == [parents[0]] + parents[1..];
    var q := parents[0];
    if q in g.terms {
      var (g1, index) := g.DeleteOperandTerm(q, node);
      if index.Some? {
        var g2 := g1.AddOperand(q, root, index.value);
        if q == p {
          assert multiset(parents[1..])[p] == 0;
          RedirectFrame(node, root, parents[1..], g2);
          Ir.InsertAfterRemove(g.terms[p].operands, index.value, root);
        } else {
          RedirectParentOnce(node, root, parents[1..], g2, p);
        }
      }
    }
  }

  /** Rewiring succeeds only if every listed parent exists and has the matched node as an operand. */
  lemma {:induction false} RedirectNeedsParents(node: Ir.Label, root: Ir.Label, parents: seq<Ir.Label>, g: Ir.Arena)
    ensures Redirect(node, root, parents, g).Ok? ==> forall p :: p in parents ==> p in g.terms
    decreases |parents|
  {
    if parents != [] && parents[0] in g.terms {
      var (g1, index) := g.DeleteOperandTerm(parents[0], node);
      if index.Some? {
        var g2 := g1.AddOperand(parents[0], root, index.value);
        RedirectNeedsParents(node, root, parents[1..], g2);
        assert parents == [parents[0]] + parents[1..];
      }
    }
  }

  /** A listed parent that exists but does not use the matched node stops the rewiring with an error. */
  lemma {:induction false} RedirectMissingOperand(node: Ir.Label, root: Ir.Label, parents: seq<Ir.Label>, g: Ir.Arena)
    requires parents != [] && parents[0] in g.terms && node !in g.terms[parents[0]].operands
    ensures Redirect(node, root, parents, g) == Err(OperandNotFound)
  {
  }

  /**
   * An operation root is copied into the matched node: the node takes its opcode and operands
   * and keeps its kind; no other node present before changes its opcode or operands.
   */
  lemma SubstituteInPlace(env: Env, fuel: nat, node: Ir.Label, rhs: MatchingTerm, m: MatchingMap, g: Ir.Arena)
    requires g.Valid() && BindingsIn(m, g) && node in g.terms
    requires Build(env, fuel, rhs, m, g).Ok?
    requires var b := Build(env, fuel, rhs, m, g).value; b.arena.terms[b.node].IsOperationNode()
    ensures var b := Build(env, fuel, rhs, m, g).value;
            var r := SubstituteSpec(env, fuel, node, rhs, m, g);
            && r.Ok? && r.value.0 == b.bindings
            && r.value.1.terms[node].op == b.arena.terms[b.node].op
            && r.value.1.terms[node].operands == b.arena.terms[b.node].operands
            && r.value.1.terms[node].termType == g.terms[node].termType
            && forall l :: l in g.terms && l != node ==> && r.value.1.terms[l].op == g.terms[l].op
                                                         && r.value.1.terms[l].operands == g.terms[l].operands
  {
    BuildGrows(env, fuel, rhs, m, g);
  }

  /**
   * A leaf root is spliced in: the matched node drops the root from its own operands, every
   * recorded parent must exist, and no node present before other than the matched node and
   * its recorded parents changes its operands.
   */
  lemma SubstituteSplice(env: Env, fuel: nat, node: Ir.Label, rhs: MatchingTerm, m: MatchingMap, g: Ir.Arena)
    requires g.Valid() && BindingsIn(m, g) && node in g.terms
    requires Build(env, fuel, rhs, m, g).Ok?
    requires var b := Build(env, fuel, rhs, m, g).value; !b.arena.terms[b.node].IsOperationNode() && b.node != node
    ensures var b := Build(env, fuel, rhs, m, g).value;
            var parents := b.arena.terms[node].parents;
            var r := SubstituteSpec(env, fuel, node, rhs, m, g);
            r.Ok? ==> && r.value.0 == b.bindings
                      && (forall p :: p in parents ==> p in b.arena.terms)
                      && (node !in parents ==> r.value.1.terms[node].operands == Ir.RemoveFirst(g.terms[node].operands, b.node))
                      && forall l :: l in g.terms && l != node && l !in parents ==> r.value.1.terms[l].operands == g.terms[l].operands
  {
    var b := Build(env, fuel, rhs, m, g).value;
    BuildGrows(env, fuel, rhs, m, g);
    var g2 := b.arena.DeleteOperandTerm(node, b.node).0;
    assert g2.terms[node].operands == Ir.RemoveFirst(g.terms[node].operands, b.node);
    RedirectNeedsParents(node, b.node, g2.terms[node].parents, g2);
    RedirectFrame(node, b.node, g2.terms[node].parents, g2);
  }

  /**
   * A recorded parent of the matched node, listed once and other than the matched node and
   * the leaf root, ends up using the root where it used the matched node first.
   */
  lemma SubstituteRedirectsParent(env: Env, fuel: nat, node: Ir.Label, rhs: MatchingTerm, m: MatchingMap, g: Ir.Arena, p: Ir.Label)
    requires g.Valid() && BindingsIn(m, g) && node in g.terms && p in g.terms
    requires Build(env, fuel, rhs, m, g).Ok?
    requires var b := Build(env, fuel, rhs, m, g).value;
             && !b.arena.terms[b.node].IsOperationNode() && b.node != node
             && multiset(b.arena.terms[node].parents)[p] == 1 && p != node && p != b.node
    ensures var b := Build(env, fuel, rhs, m, g).value;
            var r := SubstituteSpec(env, fuel, node, rhs, m, g);
            r.Ok? ==> && node in g.terms[p].operands
                      && r.value.1.terms[p].operands == g.terms[p].operands[Ir.IndexOf(g.terms[p].operands, node).value := b.node]
  {
    var b := Build(env, fuel, rhs, m, g).value;
    BuildGrows(env, fuel, rhs, m, g);
    var g2 := b.arena.DeleteOperandTerm(node, b.node).0;
    RedirectParentOnce(node, b.node, g2.terms[node].parents, g2, p);
  }

  /** Rewiring succeeds when the listed parents are distinct, present and use the matched node. */
  lemma {:induction false} RedirectSucceeds(node: Ir.Label, root: Ir.Label, parents: seq<Ir.Label>, g: Ir.Arena)
    requires forall i :: 0 <= i < |parents| ==> parents[i] in g.terms && node in g.terms[parents[i]].operands
    requires forall i, j :: 0 <= i < j < |parents| ==> parents[i] != parents[j]
    ensures Redirect(node, root, parents, g).Ok?
    decreases |parents|
  {
    if parents != [] {
      var q := parents[0];
      var (g1, index) := g.DeleteOperandTerm(q, node);
      var g2 := g1.AddOperand(q, root, index.value);
      forall i | 0 <= i < |parents[1..]|
        ensures parents[1..][i] in g2.terms && node in g2.terms[parents[1..][i]].operands
      {
        assert parents[1..][i] == parents[i + 1] != q;
      }
      RedirectSucceeds(node, root, parents[1..], g2);
    }
  }

  /**
   * The scenario below: the matched node `n` is `add(x, c)` with the recorded parents `p1` and
   * `p2`, each of which uses `n` as its only operand.
   */
  ghost predicate TwoParents(g: Ir.Arena, n: Ir.Label, x: Ir.Label, c: Ir.Label, p1: Ir.Label, p2: Ir.Label) {
    && g.Valid()
    && n != x && n != p1 && n != p2 && x != p1 && x != p2 && p1 != p2
    && n in g.terms && x in g.terms && c in g.terms && p1 in g.terms && p2 in g.terms
    && g.terms[n].operands == [x, c] && g.terms[n].parents == [p1, p2]
    && g.terms[x].op == Ir.Undefined
    && g.terms[p1].operands == [n] && g.terms[p2].operands == [n]
  }

  /** The right-hand side `x` of `add(x, c) -> x`, with `x` bound to pattern id 1. */
  function VariableRhs(): MatchingTerm {
    MatchingTerm(1, Undefined, CiphertextType, None, NoFunction, [])
  }

  lemma TwoParentsBuild(g: Ir.Arena, n: Ir.Label, x: Ir.Label, c: Ir.Label, p1: Ir.Label, p2: Ir.Label)
    requires TwoParents(g, n, x, c, p1, p2)
    ensures BindingsIn(map[0 := n, 1 := x, 2 := c], g)
    ensures Build(Env(map[], []), 0, VariableRhs(), map[0 := n, 1 := x, 2 := c], g) == Ok(Built(x, map[0 := n, 1 := x, 2 := c], g))
    ensures g.DeleteOperandTerm(n, x).0.terms[n].parents == [p1, p2]
  {
  }

  lemma TwoParentsOk(g: Ir.Arena, n: Ir.Label, x: Ir.Label, c: Ir.Label, p1: Ir.Label, p2: Ir.Label)
    requires TwoParents(g, n, x, c, p1, p2)
    ensures BindingsIn(map[0 := n, 1 := x, 2 := c], g)
    ensures SubstituteSpec(Env(map[], []), 0, n, VariableRhs(), map[0 := n, 1 := x, 2 := c], g).Ok?
  {
    TwoParentsBuild(g, n, x, c, p1, p2);
    RedirectSucceeds(n, x, [p1, p2], g.DeleteOperandTerm(n, x).0);
  }

  lemma TwoParentsParent(g: Ir.Arena, n: Ir.Label, x: Ir.Label, c: Ir.Label, p1: Ir.Label, p2: Ir.Label, p: Ir.Label)
    requires TwoParents(g, n, x, c, p1, p2) && (p == p1 || p == p2)
    ensures BindingsIn(map[0 := n, 1 := x, 2 := c], g)
    ensures var r := SubstituteSpec(Env(map[], []), 0, n, VariableRhs(), map[0 := n, 1 := x, 2 := c], g);
            r.Ok? ==> r.value.1.terms[p].operands == [x]
  {
    TwoParentsBuild(g, n, x, c, p1, p2);
    assert multiset([p1, p2])[p] == 1;
    SubstituteRedirectsParent(Env(map[], []), 0, n, VariableRhs(), map[0 := n, 1 := x, 2 := c], g, p);
    assert Ir.IndexOf([n], n) == Some(0);
  }

  lemma TwoParentsNode(g: Ir.Arena, n: Ir.Label, x: Ir.Label, c: Ir.Label, p1: Ir.Label, p2: Ir.Label)
    requires TwoParents(g, n, x, c, p1, p2)
    ensures BindingsIn(map[0 := n, 1 := x, 2 := c], g)
    ensures var r := SubstituteSpec(Env(map[], []), 0, n, VariableRhs(), map[0 := n, 1 := x, 2 := c], g);
            r.Ok? ==> r.value.1.terms[n].operands == [c]
  {
    TwoParentsBuild(g, n, x, c, p1, p2);
    SubstituteSplice(Env(map[], []), 0, n, VariableRhs(), map[0 := n, 1 := x, 2 := c], g);
    assert g.terms[n].parents == [p1, p2] && n !in [p1, p2];
    assert Ir.IndexOf([x, c], x) == Some(0);
    assert Ir.RemoveFirst(g.terms[n].operands, x) == [c] by {
      assert [x, c][1..] == [c];
    }
  }

  /**
   * Rewriting `add(x, c)` to `x` where the matched node `n` has two parents, `p1` (say
   * `negate(n)`) and `p2` (say `square(n)`): both parents end up using `x` directly, and `n`
   * keeps only `c`.
   */
  lemma SpliceTwoParentsExample(g: Ir.Arena, n: Ir.Label, x: Ir.Label, c: Ir.Label, p1: Ir.Label, p2: Ir.Label)
    requires TwoParents(g, n, x, c, p1, p2)
    ensures BindingsIn(map[0 := n, 1 := x, 2 := c], g)
    ensures var r := SubstituteSpec(Env(map[], []), 0, n, VariableRhs(), map[0 := n, 1 := x, 2 := c], g);
            && r.Ok?
            && r.value.1.terms[p1].operands == [x]
            && r.value.1.terms[p2].operands == [x]
            && r.value.1.terms[n].operands == [c]
  {
    TwoParentsOk(g, n, x, c, p1, p2);
    TwoParentsParent(g, n, x, c, p1, p2, p1);
    TwoParentsParent(g, n, x, c, p1, p2, p2);
    TwoParentsNode(g, n, x, c, p1, p2);
  }

  /** `size_t`, the unsigned 64-bit type the parent loop stores the deleted index in. */
  const SizeTLimit: nat := 0x1_0000_0000_0000_0000

  function AsSizeT(i: int): (r: nat)
    ensures r < SizeTLimit && (0 <= i < SizeTLimit ==> r == i)
  {
    i % SizeTLimit
  }

  /**
   * The index check of the parent loop as written: the deleted index is stored in a `size_t`
   * and tested with `< 0`, which no `size_t` satisfies, so the slot is always accepted. A
   * missing operand is reported here as index -1, the usual not-found value.
   */
  function ParentSlotAsWritten(index: Option<nat>): (r: Result<nat, TrsError>)
  {
    var reported := if index.Some? then index.value else -1;
    var slot := AsSizeT(reported);
    if slot < 0 then Err(OperandNotFound) else Ok(slot)
  }

  /**
   * The guard never fires: a parent that does not use the matched node gets a slot far past
   * the end of its operand list, where `add_operand` is then asked to insert.
   */
  lemma ParentSlotGuardNeverFires(operands: seq<Ir.Label>, node: Ir.Label)
    requires node !in operands && |operands| < SizeTLimit - 1
    ensures ParentSlotAsWritten(Ir.IndexOf(operands, node)) == Ok(SizeTLimit - 1)
    ensures SizeTLimit - 1 > |operands|
  {
  }

  /**
   * The intended check: `Redirect` stops with `OperandNotFound` on such a parent instead, and
   * accepts exactly the slots inside the operand list.
   */
  lemma ParentSlotCorrected(node: Ir.Label, root: Ir.Label, parents: seq<Ir.Label>, g: Ir.Arena)
    requires parents != [] && parents[0] in g.terms
    ensures node !in g.terms[parents[0]].operands ==> Redirect(node, root, parents, g) == Err(OperandNotFound)
    ensures node in g.terms[parents[0]].operands ==>
              Ir.IndexOf(g.terms[parents[0]].operands, node).value < |g.terms[parents[0]].operands|
  {
    if node !in g.terms[parents[0]].operands {
      RedirectMissingOperand(node, root, parents, g);
    }
  }
}
