/**
 * The commutative common-subexpression pass `cse_commut` of src/fheco/passes/cse_commut.cpp.
 *
 * The function `ir::Func` the pass works on is not part of this model beyond what the pass
 * calls, which is modelled here on stated assumptions:
 *  - a term is an op code and a list of operand ids; a leaf is a term without operands;
 *  - `Term::EqualPtr` orders operands by id (a strict total order on term identities);
 *  - `insert_op_term` hash-conses: it returns the term registered in the function's index for
 *    the same op code and operands when that term still exists, and otherwise inserts a new
 *    term under a fresh id and registers it;
 *  - `replace_term_with(t, n)` does nothing when `t` and `n` are the same term, and otherwise
 *    makes every use of `t` a use of `n` and removes `t`;
 *  - `get_top_sorted_terms_ids` is given as the id list it returns.
 */
module CseCommut {
  import opened Wrappers
  import Ir

  type Id = nat

  /** A term of the function: its op code and its operand ids, in order. */
  datatype Node = Node(op: Ir.OpCode, operands: seq<Id>) {
    predicate IsLeaf() {
      operands == []
    }
  }

  /** Operands in ascending id order (`EqualPtr`); equal operands may repeat. */
  predicate Ascending(s: seq<Id>) {
    forall i, j :: 0 <= i < j < |s| ==> s[i] <= s[j]
  }

  /** `x` inserted into the ascending list `s` before the first larger operand. */
  function InsertSorted(x: Id, s: seq<Id>): (r: seq<Id>)
    requires Ascending(s)
    ensures Ascending(r) && multiset(r) == multiset(s) + multiset{x}
  {
    if s == [] then [x]
    else if x <= s[0] then
      AscendingCons(x, s);
      [x] + s
    else
      var t := InsertSorted(x, s[1..]);
      assert s == [s[0]] + s[1..];
      forall k | 0 <= k < |t|
        ensures s[0] <= t[k]
      {
        assert t[k] in multiset(s[1..]) + multiset{x};
      }
      AscendingCons(s[0], t);
      [s[0]] + t
  }

  lemma AscendingCons(h: Id, t: seq<Id>)
    requires Ascending(t) && forall k :: 0 <= k < |t| ==> h <= t[k]
    ensures Ascending([h] + t)
  {
  }

  /** The canonical operand order: the ascending permutation of the operands. */
  function SortSpec(s: seq<Id>): (r: seq<Id>)
    ensures Ascending(r) && multiset(r) == multiset(s)
  {
    if s == [] then []
    else
      assert s == [s[0]] + s[1..];
      InsertSorted(s[0], SortSpec(s[1..]))
  }

  /** An ascending list is determined by its multiset of operands. */
  lemma {:induction false} AscendingUnique(s: seq<Id>, t: seq<Id>)
    requires Ascending(s) && Ascending(t) && multiset(s) == multiset(t)
    ensures s == t
    decreases |s|
  {
    if s != [] {
      assert s[0] in multiset(t);
      assert t[0] in multiset(s);
      var i :| 0 <= i < |t| && t[i] == s[0];
      var j :| 0 <= j < |s| && s[j] == t[0];
      assert s[0] == t[0];
      assert s == [s[0]] + s[1..];
      assert t == [t[0]] + t[1..];
      assert multiset(s) == multiset{s[0]} + multiset(s[1..]);
      assert multiset(t) == multiset{t[0]} + multiset(t[1..]);
      assert multiset(s[1..]) == multiset(s) - multiset{s[0]};
      assert multiset(t[1..]) == multiset(t) - multiset{t[0]};
      assert Ascending(s[1..]) && Ascending(t[1..]);
      AscendingUnique(s[1..], t[1..]);
    } else {
      assert |t| == |multiset(t)|;
    }
  }

  /**
   * The canonical order is a canonical form: two operand lists get the same canonical order
   * exactly when they are permutations of each other.
   */
  lemma SortCanonical(s: seq<Id>, t: seq<Id>)
    ensures SortSpec(s) == SortSpec(t) <==> multiset(s) == multiset(t)
  {
    if multiset(s) == multiset(t) {
      AscendingUnique(SortSpec(s), SortSpec(t));
    }
  }

  /** `sort(sorted_operands.begin(), sorted_operands.end(), EqualPtr{})`, in place. */
  method SortOperands(a: array<Id>)
    modifies a
    ensures a[..] == SortSpec(old(a[..]))
  {
    for i := 0 to a.Length
      invariant Ascending(a[..i])
      invariant multiset(a[..]) == multiset(old(a[..]))
    {
      SinkLast(a, i);
    }
    assert a[..a.Length] == a[..];
    AscendingUnique(a[..], SortSpec(old(a[..])));
  }

  /** Exchanges `a[j - 1]` and `a[j]`. */
  method SwapDown(a: array<Id>, j: nat)
    requires 0 < j < a.Length
    modifies a
    ensures a[j - 1] == old(a[j]) && a[j] == old(a[j - 1])
    ensures forall m :: 0 <= m < a.Length && m != j - 1 && m != j ==> a[m] == old(a[m])
    ensures multiset(a[..]) == multiset(old(a[..]))
  {
    a[j - 1], a[j] := a[j], a[j - 1];
  }

  /** One insertion step: `a[i]` moves left past the larger operands before it. */
  method SinkLast(a: array<Id>, i: nat)
    requires i < a.Length && Ascending(a[..i])
    modifies a
    ensures Ascending(a[..i + 1]) && multiset(a[..]) == multiset(old(a[..]))
  {
    assert forall p, q :: 0 <= p < q < i ==> a[p] <= a[q] by {
      forall p, q | 0 <= p < q < i
        ensures a[p] <= a[q]
      {
        assert a[..i][p] == a[p] && a[..i][q] == a[q];
      }
    }
    var j := i;
    while j > 0 && a[j - 1] > a[j]
      invariant 0 <= j <= i
      invariant multiset(a[..]) == multiset(old(a[..]))
      invariant forall p, q :: 0 <= p < q <= i && p != j && q != j ==> a[p] <= a[q]
      invariant forall q :: j < q <= i ==> a[j] < a[q]
    {
      SwapDown(a, j);
      j := j - 1;
    }
    assert forall p, q :: 0 <= p < q <= i ==> a[p] <= a[q];
  }

  /** Every use of `term` in `n` replaced by a use of `replacement`. */
  function Redirect(n: Node, term: Id, replacement: Id): (r: Node)
    ensures r.op == n.op && |r.operands| == |n.operands|
    ensures forall i :: 0 <= i < |n.operands| ==>
              r.operands[i] == (if n.operands[i] == term then replacement else n.operands[i])
    ensures term !in n.operands ==> r == n
  {
    Node(n.op, seq(|n.operands|, i requires 0 <= i < |n.operands| =>
                     if n.operands[i] == term then replacement else n.operands[i]))
  }

  /** The state of an `ir::Func` the pass reads and changes. */
  datatype Graph = Graph(terms: map<Id, Node>, index: map<Node, Id>, nextId: Id) {
    /**
     * Ids are below the id counter, operands are terms of the function and no term is its
     * own operand.
     */
    ghost predicate Valid() {
      forall k :: k in terms ==>
        && k < nextId
        && k !in terms[k].operands
        && forall o :: o in terms[k].operands ==> o in terms
    }

    /** The registered term with this op code and these operands, if it still exists. */
    function Lookup(n: Node): (r: Option<Id>)
      ensures r.Some? ==> r.value in terms && terms[r.value] == n
    {
      if n in index && index[n] in terms && terms[index[n]] == n then Some(index[n]) else None
    }

    /** `insert_op_term`. */
    function InsertOpTerm(op: Ir.OpCode, operands: seq<Id>): (r: (Graph, Id))
      requires Valid()
      ensures var n := Node(op, operands);
              && r.1 in r.0.terms && r.0.terms[r.1] == n && r.0.Lookup(n) == Some(r.1)
              && (Lookup(n).Some? ==> r.0 == this)
              && (Lookup(n).None? ==> r.1 !in terms && r.0.terms == terms[r.1 := n])
    {
      var n := Node(op, operands);
      match Lookup(n)
      case Some(id) => (this, id)
      case None => (Graph(terms[nextId := n], index[n := nextId], nextId + 1), nextId)
    }

    /** `replace_term_with`. */
    function ReplaceTermWith(term: Id, replacement: Id): (r: Graph)
      ensures r.index == index && r.nextId == nextId
      ensures term == replacement ==> r == this
      ensures term != replacement ==>
                && r.terms.Keys == terms.Keys - {term}
                && (forall k :: k in r.terms ==> term !in r.terms[k].operands)
                && (forall k :: k in r.terms && term !in terms[k].operands ==> r.terms[k] == terms[k])
                && (forall k :: k in r.terms ==> r.terms[k] == Redirect(terms[k], term, replacement))
    {
      if term == replacement then this
      else
        Graph(map k | k in terms && k != term :: Redirect(terms[k], term, replacement), index, nextId)
    }

    /** One iteration of the pass on the term `id`. */
    function Visit(id: Id): (r: Graph)
      requires Valid()
      ensures r.Valid()
    {
      if id !in terms || terms[id].IsLeaf() then this
      else
        var (g, n) := InsertOpTerm(terms[id].op, SortSpec(terms[id].operands));
        InsertCanonicalValid(this, id);
        ReplaceValid(g, id, n);
        g.ReplaceTermWith(id, n)
    }

    /** The term the pass replaces `id` with: the registered term of its canonical form. */
    function Target(id: Id): Id
      requires Valid() && id in terms
    {
      InsertOpTerm(terms[id].op, SortSpec(terms[id].operands)).1
    }
  }

  /** The whole pass over the ids in the given order. */
  function Pass(g: Graph, ids: seq<Id>): (r: Graph)
    requires g.Valid()
    ensures r.Valid()
    decreases |ids|
  {
    if ids == [] then g
    else
      Pass(g, ids[..|ids| - 1]).Visit(ids[|ids| - 1])
  }

  /** Inserting the canonical form of a term keeps the function well formed. */
  lemma InsertCanonicalValid(g: Graph, id: Id)
    requires g.Valid() && id in g.terms
    ensures var (h, n) := g.InsertOpTerm(g.terms[id].op, SortSpec(g.terms[id].operands));
            h.Valid() && id !in h.terms[n].operands
  {
    var ops := SortSpec(g.terms[id].operands);
    assert id !in ops by {
      assert id !in multiset(g.terms[id].operands);
    }
    forall o | o in ops
      ensures o in g.terms
    {
      assert o in multiset(g.terms[id].operands);
    }
  }

  /** Replacing a term by one that does not use it keeps the function well formed. */
  lemma ReplaceValid(h: Graph, id: Id, n: Id)
    requires h.Valid() && n in h.terms && id !in h.terms[n].operands
    ensures h.ReplaceTermWith(id, n).Valid()
  {
    var r := h.ReplaceTermWith(id, n);
    if n != id {
      forall k | k in r.terms
        ensures k < r.nextId && k !in r.terms[k].operands
        ensures forall o :: o in r.terms[k].operands ==> o in r.terms
      {
        var before := h.terms[k];
        var now := r.terms[k];
        assert now == Redirect(before, id, n);
        forall o | o in now.operands
          ensures o in r.terms && o != k
        {
          var i :| 0 <= i < |now.operands| && now.operands[i] == o;
          if before.operands[i] != id {
            assert before.operands[i] in before.operands;
          }
        }
      }
    }
  }

  /**
   * Visiting a non-leaf term replaces it by a term with the same op code whose operands are
   * its operands in canonical order, whatever the op code is; the visited term is gone unless
   * it is that term, and no remaining term uses it any more.
   */
  lemma VisitCanonicalizes(g: Graph, id: Id)
    requires g.Valid() && id in g.terms && !g.terms[id].IsLeaf()
    ensures var r := g.Visit(id);
            var n := g.Target(id);
            && n in r.terms
            && r.terms[n].op == g.terms[id].op
            && Ascending(r.terms[n].operands)
            && multiset(r.terms[n].operands) == multiset(g.terms[id].operands)
            && (n != id ==> id !in r.terms && forall k :: k in r.terms ==> id !in r.terms[k].operands)
            && (n != id ==> r.terms.Keys == g.terms.Keys + {n} - {id})
            && (n != id ==> forall k :: k in g.terms && k != id ==> r.terms[k] == Redirect(g.terms[k], id, n))
  {
    var ops := SortSpec(g.terms[id].operands);
    var (h, n) := g.InsertOpTerm(g.terms[id].op, ops);
    assert id !in ops by {
      assert id !in multiset(g.terms[id].operands);
    }
    if n != id {
      assert h.ReplaceTermWith(id, n).terms[n] == h.terms[n];
    }
  }

  /**
   * Structural deduplication: once one term has been visited, a later term with the same op
   * code over a permutation of the same operands is replaced by the same term.
   */
  lemma PermutedDuplicatesMerge(g: Graph, id1: Id, id2: Id)
    requires g.Valid() && id1 in g.terms && id2 in g.terms && id1 != id2
    requires !g.terms[id1].IsLeaf() && id1 !in g.terms[id2].operands
    requires g.terms[id1].op == g.terms[id2].op
    requires multiset(g.terms[id1].operands) == multiset(g.terms[id2].operands)
    ensures var g1 := g.Visit(id1);
            id2 in g1.terms && g1.terms[id2] == g.terms[id2] && g1.Target(id2) == g.Target(id1)
  {
    var t1 := g.terms[id1];
    var ops := SortSpec(t1.operands);
    SortCanonical(t1.operands, g.terms[id2].operands);
    var node := Node(t1.op, ops);
    var (h, n) := g.InsertOpTerm(t1.op, ops);
    assert id1 !in ops by {
      assert id1 !in multiset(t1.operands);
    }
    var g1 := h.ReplaceTermWith(id1, n);
    assert g1 == g.Visit(id1);
    assert g1.terms[id2] == g.terms[id2];
    if n != id1 {
      assert g1.terms[n] == node;
    }
    assert g1.Lookup(node) == Some(n);
  }

  /** A term the pass leaves as it is: gone, a leaf, or already canonical and registered. */
  ghost predicate Settled(g: Graph, id: Id) {
    id !in g.terms || g.terms[id].IsLeaf()
    || (Ascending(g.terms[id].operands) && g.Lookup(g.terms[id]) == Some(id))
  }

  /**
   * The pass is a fixpoint on a function whose terms are all settled: running it changes
   * nothing.
   */
  lemma {:induction false} PassFixpoint(g: Graph, ids: seq<Id>)
    requires g.Valid() && forall i :: 0 <= i < |ids| ==> Settled(g, ids[i])
    ensures Pass(g, ids) == g
    decreases |ids|
  {
    if ids != [] {
      var init := ids[..|ids| - 1];
      PassFixpoint(g, init);
      var id := ids[|ids| - 1];
      assert Settled(g, id);
      if id in g.terms && !g.terms[id].IsLeaf() {
        AscendingUnique(SortSpec(g.terms[id].operands), g.terms[id].operands);
      }
    }
  }

  /**
   * The pass has no commutativity check: a subtraction `b - a` over operands with ids
   * `a < b` is rebuilt as `a - b`.
   */
  lemma SubtractionReordered(g: Graph, id: Id, a: Id, b: Id)
    requires g.Valid() && id in g.terms && g.terms[id] == Node(Ir.Sub, [b, a]) && a < b
    ensures var r := g.Visit(id);
            g.Target(id) in r.terms && r.terms[g.Target(id)] == Node(Ir.Sub, [a, b])
  {
    VisitCanonicalizes(g, id);
    var s := g.Visit(id).terms[g.Target(id)].operands;
    assert multiset(s) == multiset([b, a]);
    assert |s| == 2 by {
      assert |multiset(s)| == |multiset([b, a])|;
    }
    AscendingUnique(s, [a, b]);
  }

  /** An `ir::Func` whose terms the pass replaces in place. */
  class Func {
    var terms: map<Id, Node>
    var index: map<Node, Id>
    var nextId: Id

    function Snapshot(): Graph
      reads this
    {
      Graph(terms, index, nextId)
    }

    constructor (g: Graph)
      ensures Snapshot() == g
    {
      terms, index, nextId := g.terms, g.index, g.nextId;
    }

    /** `data_flow().get_term(id)`: the term, or nothing when it no longer exists. */
    method GetTerm(id: Id) returns (t: Option<Node>)
      ensures t.Some? <==> id in terms
      ensures t.Some? ==> t.value == terms[id]
    {
      t := if id in terms then Some(terms[id]) else None;
    }

    method InsertOpTerm(op: Ir.OpCode, operands: seq<Id>) returns (id: Id)
      requires Snapshot().Valid()
      modifies this
      ensures (Snapshot(), id) == old(Snapshot()).InsertOpTerm(op, operands)
    {
      var r := Snapshot().InsertOpTerm(op, operands);
      terms, index, nextId := r.0.terms, r.0.index, r.0.nextId;
      id := r.1;
    }

    method ReplaceTermWith(term: Id, replacement: Id)
      modifies this
      ensures Snapshot() == old(Snapshot()).ReplaceTermWith(term, replacement)
    {
      if term != replacement {
        terms := map k | k in terms && k != term :: Redirect(terms[k], term, replacement);
      }
    }
  }

  /** `cse_commut`: every id of the topological order, in turn, as `Pass` states. */
  method RunCseCommut(func: Func, ids: seq<Id>)
    requires func.Snapshot().Valid()
    modifies func
    ensures func.Snapshot() == Pass(old(func.Snapshot()), ids)
  {
    ghost var g0 := func.Snapshot();
    for i := 0 to |ids|
      invariant func.Snapshot() == Pass(g0, ids[..i])
    {
      assert ids[..i + 1][..i] == ids[..i];
      var id := ids[i];
      ghost var g := func.Snapshot();
      var term := func.GetTerm(id);
      if term.None? || term.value.IsLeaf() {
        continue;
      }
      var operands := term.value.operands;
      var sorted := new Id[|operands|](k requires 0 <= k < |operands| => operands[k]);
      assert sorted[..] == operands;
      SortOperands(sorted);
      var n := func.InsertOpTerm(term.value.op, sorted[..]);
      func.ReplaceTermWith(id, n);
      assert func.Snapshot() == g.Visit(id);
    }
    assert ids[..|ids|] == ids;
  }
}
