/**
 * The intermediate representation the rewriting engine works on.
 *
 * The program's own `ir::Program` and `ir::Term` classes are not part of this model. They are
 * modelled as an arena: a map from label to a term record (opcode, kind, operand labels and
 * parent labels) plus a constants table from label to value, with the primitives that
 * src/fheco/trs/trs_core.cpp calls on them (find a node, delete an operand, add an operand at
 * an index, rewrite a node with an operation, insert a node, insert a constants-table entry).
 * Each primitive is a pure function on `Arena`; the class `Program` holds the same state in
 * fields and its methods apply those functions in place.
 */
module Ir {
  import opened Wrappers

  /** IR operation codes; `Undefined` marks a leaf (input, raw datum or constant). */
  datatype OpCode =
    | Undefined | Assign | Encrypt | Add | AddPlain | Mul | MulPlain | Sub | SubPlain
    | Rotate | RotateRows | RotateColumns | Square | Negate | Exponentiate
    | Modswitch | Relinearize | Rescale

  /** IR term kinds. */
  datatype TermType = CiphertextType | PlaintextType | ScalarType | RawDataType

  /**
   * Term labels: `Temp` labels are generated by the insertion primitives from a counter,
   * `Named` labels are given by the front end (a raw datum is labelled by its decimal text).
   */
  datatype Label = Temp(id: nat) | Named(name: string)

  datatype ConstantValue = ScalarValue(value: int) | VectorValue(values: seq<int>)

  datatype Term = Term(op: OpCode, termType: TermType, operands: seq<Label>, parents: seq<Label>) {
    predicate IsOperationNode() {
      op != Undefined
    }
  }

  /** Index of the first occurrence of `x` in `s`. */
  function IndexOf(s: seq<Label>, x: Label): (r: Option<nat>)
    ensures r.None? <==> x !in s
    ensures r.Some? ==> r.value < |s| && s[r.value] == x && x !in s[..r.value]
  {
    if |s| == 0 then None
    else if s[0] == x then Some(0)
    else match IndexOf(s[1..], x)
      case None => None
      case Some(i) =>
        assert s[1..][..i] == s[1..i + 1];
        Some(i + 1)
  }

  function RemoveAt(s: seq<Label>, i: nat): (r: seq<Label>)
    requires i < |s|
    ensures |r| == |s| - 1 && r == s[..i] + s[i + 1..]
  {
    s[..i] + s[i + 1..]
  }

  function InsertAt(s: seq<Label>, i: nat, x: Label): (r: seq<Label>)
    requires i <= |s|
    ensures |r| == |s| + 1 && r[i] == x && r == s[..i] + [x] + s[i..]
  {
    s[..i] + [x] + s[i..]
  }

  /** Deleting the element at `i` and inserting `x` at `i` overwrites slot `i` with `x`. */
  lemma InsertAfterRemove(s: seq<Label>, i: nat, x: Label)
    requires i < |s|
    ensures InsertAt(RemoveAt(s, i), i, x) == s[i := x]
  {
    var r := InsertAt(RemoveAt(s, i), i, x);
    assert |r| == |s|;
    forall k | 0 <= k < |s|
      ensures r[k] == s[i := x][k]
    {
      if k < i {
        assert r[k] == s[k];
      } else if k > i {
        assert r[k] == RemoveAt(s, i)[k - 1] == s[k];
      }
    }
  }

  /** `s` without its first occurrence of `x` (unchanged when `x` is absent). */
  function RemoveFirst(s: seq<Label>, x: Label): (r: seq<Label>)
    ensures x !in s ==> r == s
    ensures x in s ==> |r| == |s| - 1
  {
    match IndexOf(s, x)
    case None => s
    case Some(i) => RemoveAt(s, i)
  }

  /** Removing the first occurrence takes exactly one copy of `x` out, when there is one. */
  lemma RemoveFirstMultiset(s: seq<Label>, x: Label)
    ensures multiset(RemoveFirst(s, x)) == multiset(s) - multiset{x}
  {
    if x in s {
      var i := IndexOf(s, x).value;
      assert s == s[..i] + [x] + s[i + 1..];
    }
  }

  /** `b` differs from `a` at most in parent lists. */
  ghost predicate SameStructure(a: map<Label, Term>, b: map<Label, Term>) {
    && a.Keys == b.Keys
    && forall l :: l in a ==> && b[l].op == a[l].op
                              && b[l].termType == a[l].termType
                              && b[l].operands == a[l].operands
  }

  /** Appends `parent` to the parent list of every present label of `children`. */
  function AddParent(terms: map<Label, Term>, children: seq<Label>, parent: Label): (r: map<Label, Term>)
    ensures SameStructure(terms, r)
    ensures forall l :: l in terms && l !in children ==> r[l] == terms[l]
    decreases |children|
  {
    if children == [] then terms
    else
      var c := children[0];
      var next := if c in terms then terms[c := terms[c].(parents := terms[c].parents + [parent])] else terms;
      AddParent(next, children[1..], parent)
  }

  /** Removes one occurrence of `parent` from the parent list of every present label of `children`. */
  function RemoveParent(terms: map<Label, Term>, children: seq<Label>, parent: Label): (r: map<Label, Term>)
    ensures SameStructure(terms, r)
    ensures forall l :: l in terms && l !in children ==> r[l] == terms[l]
    decreases |children|
  {
    if children == [] then terms
    else
      var c := children[0];
      var next := if c in terms then terms[c := terms[c].(parents := RemoveFirst(terms[c].parents, parent))] else terms;
      RemoveParent(next, children[1..], parent)
  }

  /** `n` copies of `x`. */
  function Copies(x: Label, n: nat): (r: seq<Label>)
    ensures |r| == n
  {
    if n == 0 then [] else [x] + Copies(x, n - 1)
  }

  /**
   * Adding `parent` for a list of children appends one copy of `parent` to the parent list
   * of term `l` for each time `l` occurs among the children, and leaves the rest of the list
   * as it was.
   */
  lemma {:induction false} AddParentAppends(terms: map<Label, Term>, children: seq<Label>, parent: Label, l: Label)
    requires l in terms
    ensures AddParent(terms, children, parent)[l].parents == terms[l].parents + Copies(parent, multiset(children)[l])
    decreases |children|
  {
    if children != [] {
      var c := children[0];
      var next := if c in terms then terms[c := terms[c].(parents := terms[c].parents + [parent])] else terms;
      var n := multiset(children[1..])[l];
      CountHead(children, l);
      var r := AddParent(next, children[1..], parent);
      assert AddParent(terms, children, parent) == r;
      AddParentAppends(next, children[1..], parent, l);
      if l == c {
        AppendCopies(terms[l].parents, parent, n);
      } else {
        assert next[l] == terms[l];
      }
    }
  }

  lemma CountHead(s: seq<Label>, l: Label)
    requires s != []
    ensures multiset(s)[l] == multiset(s[1..])[l] + (if l == s[0] then 1 else 0)
  {
    assert s == [s[0]] + s[1..];
  }

  lemma AppendCopies(s: seq<Label>, x: Label, n: nat)
    ensures s + [x] + Copies(x, n) == s + Copies(x, n + 1)
  {
    assert Copies(x, n + 1) == [x] + Copies(x, n);
  }

  /**
   * Removing `parent` for a list of children takes one copy of `parent` out of the parent
   * list of term `l` for each time `l` occurs among the children, as far as there are copies.
   */
  lemma {:induction false} RemoveParentRemoves(terms: map<Label, Term>, children: seq<Label>, parent: Label, l: Label)
    requires l in terms
    ensures multiset(RemoveParent(terms, children, parent)[l].parents) ==
              multiset(terms[l].parents) - multiset(Copies(parent, multiset(children)[l]))
    decreases |children|
  {
    if children != [] {
      var c := children[0];
      var next := if c in terms then terms[c := terms[c].(parents := RemoveFirst(terms[c].parents, parent))] else terms;
      assert RemoveParent(terms, children, parent) == RemoveParent(next, children[1..], parent);
      RemoveParentRemoves(next, children[1..], parent, l);
      RemoveParentStep(terms, next, children, parent, l, RemoveParent(next, children[1..], parent)[l].parents);
    }
  }

  /** The step of `RemoveParentRemoves`: the first child's removal joins the rest's. */
  lemma RemoveParentStep(terms: map<Label, Term>, next: map<Label, Term>, children: seq<Label>, parent: Label, l: Label,
                         rest: seq<Label>)
    requires l in terms && children != []
    requires next == if children[0] in terms
                     then terms[children[0] := terms[children[0]].(parents := RemoveFirst(terms[children[0]].parents, parent))]
                     else terms
    requires multiset(rest) == multiset(next[l].parents) - multiset(Copies(parent, multiset(children[1..])[l]))
    ensures multiset(rest) == multiset(terms[l].parents) - multiset(Copies(parent, multiset(children)[l]))
  {
    var n := multiset(children[1..])[l];
    CountHead(children, l);
    if l == children[0] {
      RemoveCopies(terms[l].parents, parent, n);
    } else {
      assert next[l] == terms[l];
    }
  }

  lemma RemoveCopies(s: seq<Label>, x: Label, n: nat)
    ensures multiset(RemoveFirst(s, x)) - multiset(Copies(x, n)) == multiset(s) - multiset(Copies(x, n + 1))
  {
    RemoveFirstMultiset(s, x);
    assert Copies(x, n + 1) == [x] + Copies(x, n);
    MultisetMinusTwice(multiset(s), x, multiset(Copies(x, n)));
  }

  lemma MultisetMinusTwice(a: multiset<Label>, x: Label, b: multiset<Label>)
    ensures (a - multiset{x}) - b == a - (multiset{x} + b)
  {
    forall y
      ensures ((a - multiset{x}) - b)[y] == (a - (multiset{x} + b))[y]
    {
    }
  }

  /** The state of an IR program: its terms, its constants table and the label counter. */
  datatype Arena = Arena(terms: map<Label, Term>, constants: map<Label, ConstantValue>, nextId: nat) {

    /**
     * Every generated label is below the counter, so the next generated label is fresh for
     * the terms and for the constants table.
     */
    ghost predicate Valid() {
      && (forall l :: l in terms && l.Temp? ==> l.id < nextId)
      && (forall l :: l in constants && l.Temp? ==> l.id < nextId)
    }

    function FindNode(l: Label): (r: Option<Term>)
      ensures r.Some? <==> l in terms
      ensures r.Some? ==> r.value == terms[l]
    {
      if l in terms then Some(terms[l]) else None
    }

    /**
     * Removes the first occurrence of `operand` from the operands of `node` and returns its
     * index; `node` is removed from the parents of `operand`. Nothing changes and no index is
     * returned when `node` is unknown or does not have `operand`.
     */
    function DeleteOperandTerm(node: Label, operand: Label): (r: (Arena, Option<nat>))
      ensures r.0.constants == constants && r.0.nextId == nextId && r.0.terms.Keys == terms.Keys
      ensures r.1.None? <==> node !in terms || operand !in terms[node].operands
      ensures r.1.None? ==> r.0 == this
      ensures r.1.Some? ==>
                && r.1.value < |terms[node].operands|
                && terms[node].operands[r.1.value] == operand
                && operand !in terms[node].operands[..r.1.value]
                && r.0.terms[node].operands == RemoveAt(terms[node].operands, r.1.value)
                && r.0.terms[node].op == terms[node].op
      ensures node in terms ==> r.1 == IndexOf(terms[node].operands, operand)
      ensures node in terms && operand != node ==> r.0.terms[node].parents == terms[node].parents
      ensures forall l :: l in terms && l != node ==> r.0.terms[l].op == terms[l].op && r.0.terms[l].operands == terms[l].operands
      ensures forall l :: l in terms && l != node && l != operand ==> r.0.terms[l] == terms[l]
    {
      if node !in terms then (this, None)
      else
        match IndexOf(terms[node].operands, operand)
        case None => (this, None)
        case Some(i) =>
          var t1 := terms[node := terms[node].(operands := RemoveAt(terms[node].operands, i))];
          var t2 := if operand in t1 then t1[operand := t1[operand].(parents := RemoveFirst(t1[operand].parents, node))] else t1;
          (this.(terms := t2), Some(i))
    }

    /** Inserts `operand` at position `index` of the operands of `node`; `node` becomes one of its parents. */
    function AddOperand(node: Label, operand: Label, index: nat): (r: Arena)
      requires node in terms && index <= |terms[node].operands|
      ensures r.constants == constants && r.nextId == nextId && r.terms.Keys == terms.Keys
      ensures r.terms[node].operands == InsertAt(terms[node].operands, index, operand)
      ensures r.terms[node].op == terms[node].op
      ensures forall l :: l in terms && l != node ==> r.terms[l].op == terms[l].op && r.terms[l].operands == terms[l].operands
      ensures forall l :: l in terms && l != node && l != operand ==> r.terms[l] == terms[l]
    {
      var t1 := terms[node := terms[node].(operands := InsertAt(terms[node].operands, index, operand))];
      var t2 := if operand in t1 then t1[operand := t1[operand].(parents := t1[operand].parents + [node])] else t1;
      this.(terms := t2)
    }

    /**
     * `node` takes over the opcode and operands of `source` and keeps its label, kind and
     * parents; parent lists of the old and new operands are updated.
     */
    function RewriteWithOperation(node: Label, source: Label): (r: Arena)
      requires node in terms && source in terms
      ensures r.constants == constants && r.nextId == nextId && r.terms.Keys == terms.Keys
      ensures r.terms[node].op == terms[source].op
      ensures r.terms[node].operands == terms[source].operands
      ensures r.terms[node].termType == terms[node].termType
      ensures forall l :: l in terms && l != node ==>
                && r.terms[l].op == terms[l].op
                && r.terms[l].operands == terms[l].operands
    {
      var src := terms[source];
      var t1 := RemoveParent(terms, terms[node].operands, node);
      var t2 := t1[node := t1[node].(op := src.op, operands := src.operands)];
      this.(terms := AddParent(t2, src.operands, node))
    }

    /** Inserts a new operation node under a fresh label; it becomes a parent of each operand. */
    function InsertOperationNode(op: OpCode, operands: seq<Label>, termType: TermType): (r: (Label, Arena))
      requires Valid()
      ensures r.1.Valid()
      ensures r.0 !in terms && r.1.terms.Keys == terms.Keys + {r.0}
      ensures r.1.constants == constants && r.1.nextId > nextId
      ensures r.1.terms[r.0].op == op && r.1.terms[r.0].operands == operands
      ensures r.1.terms[r.0].termType == termType
      ensures forall l :: l in terms ==> && r.1.terms[l].op == terms[l].op
                                         && r.1.terms[l].termType == terms[l].termType
                                         && r.1.terms[l].operands == terms[l].operands
    {
      var l := Temp(nextId);
      var t := terms[l := Term(op, termType, operands, [])];
      (l, Arena(AddParent(t, operands, l), constants, nextId + 1))
    }

    /** Inserts a new leaf node (no operands, no parents) under a fresh label. */
    function InsertLeafNode(termType: TermType): (r: (Label, Arena))
      requires Valid()
      ensures r.1.Valid()
      ensures r.0 !in terms && r.0 !in constants && r.1.terms == terms[r.0 := Term(Undefined, termType, [], [])]
      ensures r.1.constants == constants && r.1.nextId > nextId
    {
      var l := Temp(nextId);
      (l, Arena(terms[l := Term(Undefined, termType, [], [])], constants, nextId + 1))
    }

    /** Records the value of the node labelled `l` in the constants table. */
    function InsertConstant(l: Label, v: ConstantValue): (r: Arena)
      requires l in terms
      ensures Valid() ==> r.Valid()
      ensures r.terms == terms && r.nextId == nextId && r.constants == constants[l := v]
    {
      this.(constants := constants[l := v])
    }
  }

  /** Deleting an operand drops the first occurrence of `node` from that operand's parents. */
  lemma DeleteOperandParents(g: Arena, node: Label, operand: Label)
    ensures var (h, index) := g.DeleteOperandTerm(node, operand);
            && (index.Some? && operand in g.terms ==> h.terms[operand].parents == RemoveFirst(g.terms[operand].parents, node))
            && (node in g.terms && operand != node ==> h.terms[node].parents == g.terms[node].parents)
  {
  }

  /** Adding an operand appends `node` to that operand's parents and leaves `node`'s own alone. */
  lemma AddOperandParents(g: Arena, node: Label, operand: Label, index: nat)
    requires node in g.terms && index <= |g.terms[node].operands|
    ensures operand in g.terms ==> g.AddOperand(node, operand, index).terms[operand].parents == g.terms[operand].parents + [node]
    ensures operand != node ==> g.AddOperand(node, operand, index).terms[node].parents == g.terms[node].parents
  {
  }

  /**
   * A new operation node becomes a parent of each of its operands once per occurrence among
   * them; it has no other parents.
   */
  lemma InsertOperationParents(g: Arena, op: OpCode, operands: seq<Label>, termType: TermType, k: Label)
    requires g.Valid() && k in g.terms
    ensures var (l, h) := g.InsertOperationNode(op, operands, termType);
            && h.terms[k].parents == g.terms[k].parents + Copies(l, multiset(operands)[k])
            && h.terms[l].parents == Copies(l, multiset(operands)[l])
  {
    var l := Temp(g.nextId);
    var t := g.terms[l := Term(op, termType, operands, [])];
    AddParentAppends(t, operands, l, k);
    AddParentAppends(t, operands, l, l);
  }

  /**
   * Rewriting `node` with the operation of `source` takes `node` out of the parent lists of
   * its old operands and adds it to those of its new ones, once per occurrence.
   */
  lemma RewriteParents(g: Arena, node: Label, source: Label, k: Label)
    requires node in g.terms && source in g.terms && k in g.terms
    ensures multiset(g.RewriteWithOperation(node, source).terms[k].parents) ==
              multiset(g.terms[k].parents) - multiset(Copies(node, multiset(g.terms[node].operands)[k]))
                + multiset(Copies(node, multiset(g.terms[source].operands)[k]))
  {
    var src := g.terms[source];
    var t1 := RemoveParent(g.terms, g.terms[node].operands, node);
    var t2 := t1[node := t1[node].(op := src.op, operands := src.operands)];
    RemoveParentRemoves(g.terms, g.terms[node].operands, node, k);
    assert t2[k].parents == t1[k].parents;
    AddParentAppends(t2, src.operands, node, k);
  }

  /** An IR program whose state the rewriting engine changes in place. */
  class Program {
    var terms: map<Label, Term>
    var constants: map<Label, ConstantValue>
    var nextId: nat

    function Snapshot(): Arena
      reads this
    {
      Arena(terms, constants, nextId)
    }

    ghost predicate Valid()
      reads this
    {
      Snapshot().Valid()
    }

    constructor (g: Arena)
      requires g.Valid()
      ensures Valid() && Snapshot() == g
    {
      terms, constants, nextId := g.terms, g.constants, g.nextId;
    }

    method FindNodeInDataflow(l: Label) returns (t: Option<Term>)
      ensures t == Snapshot().FindNode(l)
    {
      t := if l in terms then Some(terms[l]) else None;
    }

    method DeleteOperandTerm(node: Label, operand: Label) returns (index: Option<nat>)
      requires Valid()
      modifies this
      ensures Valid()
      ensures (Snapshot(), index) == old(Snapshot()).DeleteOperandTerm(node, operand)
    {
      var r := Snapshot().DeleteOperandTerm(node, operand);
      terms, index := r.0.terms, r.1;
    }

    method AddOperand(node: Label, operand: Label, index: nat)
      requires Valid() && node in terms && index <= |terms[node].operands|
      modifies this
      ensures Valid()
      ensures Snapshot() == old(Snapshot()).AddOperand(node, operand, index)
    {
      terms := Snapshot().AddOperand(node, operand, index).terms;
    }

    method RewriteWithOperation(node: Label, source: Label)
      requires Valid() && node in terms && source in terms
      modifies this
      ensures Valid()
      ensures Snapshot() == old(Snapshot()).RewriteWithOperation(node, source)
    {
      terms := Snapshot().RewriteWithOperation(node, source).terms;
    }

    method InsertOperationNode(op: OpCode, operands: seq<Label>, termType: TermType) returns (l: Label)
      requires Valid()
      modifies this
      ensures Valid()
      ensures (l, Snapshot()) == old(Snapshot()).InsertOperationNode(op, operands, termType)
    {
      var r := Snapshot().InsertOperationNode(op, operands, termType);
      l, terms, nextId := r.0, r.1.terms, r.1.nextId;
    }

    method InsertCreatedNode(termType: TermType) returns (l: Label)
      requires Valid()
      modifies this
      ensures Valid()
      ensures (l, Snapshot()) == old(Snapshot()).InsertLeafNode(termType)
    {
      var r := Snapshot().InsertLeafNode(termType);
      l, terms, nextId := r.0, r.1.terms, r.1.nextId;
    }

    method InsertEntryInConstantsTable(l: Label, v: ConstantValue)
      requires Valid() && l in terms
      modifies this
      ensures Valid()
      ensures Snapshot() == old(Snapshot()).InsertConstant(l, v)
    {
      constants := constants[l := v];
    }
  }
}
