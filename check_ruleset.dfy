/**
 * The rule-set checker of src/fheco/trs/reduct_order/check_ruleset.cpp: each rule's left- and
 * right-hand sides are compared under a lexicographic product of named reduction orders, and
 * the first decisive comparison accepts or rejects the rule.
 *
 * The primitive orders (compon_orders.hpp) are not part of this model: they are an
 * uninterpreted `Primitives` function from a primitive and two rule sides to a comparison
 * result. The log written to `clog` is modelled as a sequence of `LogLine`s, without the
 * printed rule text; a thrown `logic_error` is the report's `error`.
 */
module CheckRuleset {
  import opened Wrappers

  datatype CompResult = Less | Equal | Greater | NotGeneralizable

  /** The term classes the primitive orders count or skip. */
  datatype TermClass =
    | IsMul | IsSquare | IsRotate | IsMulPlain | IsHeAdd | IsCipherCipherOp | IsPlainPlainOp
    | IsConstOp | IsLeaf | IsVar | IsCipher | IsPlain | IsConst | IsNotRotate

  /** The primitive orders the components call. */
  datatype Primitive =
    | SumXdepth | SumDepth | SumTotalDepth | SumRotationSteps
    | ClassSubtermsCount(counted: TermClass, within: TermClass)
    | PhiStr(skipped: TermClass, counted: TermClass)

  /** A named component: a primitive applied to (lhs, rhs), or to (rhs, lhs) when `swapped`. */
  datatype Component = Component(name: string, primitive: Primitive, swapped: bool)

  type Primitives<!T> = (Primitive, T, T) -> CompResult

  function Compare<T>(prims: Primitives<T>, c: Component, lhs: T, rhs: T): CompResult {
    if c.swapped then prims(c.primitive, rhs, lhs) else prims(c.primitive, lhs, rhs)
  }

  const DepthOrder: seq<Component> := [
    Component("sum_xdepth", SumXdepth, false),
    Component("sum_depth", SumDepth, false),
    Component("sum_total_depth", SumTotalDepth, false)
  ]

  const OpsCostOrder: seq<Component> := [
    Component("mul_count", ClassSubtermsCount(IsMul, IsCipher), false),
    Component("square_count", ClassSubtermsCount(IsSquare, IsCipher), false),
    Component("rotate_count", ClassSubtermsCount(IsRotate, IsCipher), false),
    Component("mul_plain_count", ClassSubtermsCount(IsMulPlain, IsCipher), false),
    Component("he_add_count", ClassSubtermsCount(IsHeAdd, IsCipher), false),
    Component("sum_rotation_steps", SumRotationSteps, false),
    Component("cipher_cipher_op_count", ClassSubtermsCount(IsCipherCipherOp, IsCipher), false),
    Component("plain_plain_op_count", ClassSubtermsCount(IsPlainPlainOp, IsPlain), false),
    Component("const_op_count", ClassSubtermsCount(IsConstOp, IsPlain), true),
    Component("leaves_count", ClassSubtermsCount(IsLeaf, IsVar), false),
    Component("rotate_phi_str", PhiStr(IsNotRotate, IsRotate), false),
    Component("const_phi_str", PhiStr(IsVar, IsConst), false)
  ]

  const JoinedOrder: seq<Component> := [
    Component("sum_xdepth", SumXdepth, false),
    Component("sum_depth", SumDepth, false),
    Component("sum_total_depth", SumTotalDepth, false),
    Component("mul_count", ClassSubtermsCount(IsMul, IsCipher), false),
    Component("square_count", ClassSubtermsCount(IsSquare, IsCipher), false),
    Component("rotate_count", ClassSubtermsCount(IsRotate, IsCipher), false),
    Component("mul_plain_count", ClassSubtermsCount(IsMulPlain, IsCipher), false),
    Component("he_add_count", ClassSubtermsCount(IsHeAdd, IsCipher), false),
    Component("sum_rotation_steps", SumRotationSteps, false),
    Component("cipher_cipher_op_count", ClassSubtermsCount(IsCipherCipherOp, IsCipher), false),
    Component("plain_plain_op_count", ClassSubtermsCount(IsPlainPlainOp, IsPlain), false),
    Component("const_op_count", ClassSubtermsCount(IsConstOp, IsPlain), true),
    Component("leaves_count", ClassSubtermsCount(IsLeaf, IsVar), false),
    Component("rotate_phi_str", PhiStr(IsNotRotate, IsRotate), false),
    Component("const_phi_str", PhiStr(IsVar, IsConst), false)
  ]

  /** A rule: its two sides, whether its right-hand side is computed by a callback, whether it has a condition. */
  datatype Rule<T> = Rule(lhs: T, rhs: T, dynamicRhs: bool, hasCond: bool)

  /** The lines the checker logs. */
  datatype LogLine =
    | RuleHeader | DynamicRhsNote | Trying(name: string) | RejectedNote | NotGeneralizableNote
    | ConditionUnsupportedNote | ConditionMissingNote | UndefinedOrderNote | AcceptedNote
    | Separator | UnorderedNote | RulesetHeader | GroupHeader(rootOp: string)

  datatype Verdict = DynamicRhs | Rejected | NeedsCondition | Accepted | Unordered

  datatype CheckError = RejectedRule | UnorderedRule

  /** What checking one rule logs, decides and throws. */
  datatype Report = Report(log: seq<LogLine>, verdict: Verdict, error: Option<CheckError>)

  /** `check_rule`. */
  function CheckRule<T>(prims: Primitives<T>, rule: Rule<T>, order: seq<Component>, throwOnFailure: bool): (r: Report)
    ensures r.log != [] && r.log[0] == RuleHeader
    ensures r.error.Some? ==> throwOnFailure && !rule.dynamicRhs && r.verdict in {Rejected, Unordered}
    ensures rule.dynamicRhs <==> r.verdict == DynamicRhs
  {
    if rule.dynamicRhs then Report([RuleHeader, DynamicRhsNote], DynamicRhs, None)
    else
      var r := TryOrders(prims, rule, order, throwOnFailure);
      TryOrdersDecides(prims, rule, order, throwOnFailure);
      r.(log := [RuleHeader] + r.log)
  }

  /** The loop over the components of `check_rule`: `equal` moves on, anything else decides. */
  function TryOrders<T>(prims: Primitives<T>, rule: Rule<T>, order: seq<Component>, throwOnFailure: bool): (r: Report)
    decreases |order|
  {
    if order == [] then
      Report([UnorderedNote], Unordered, if throwOnFailure then Some(UnorderedRule) else None)
    else
      var c := order[0];
      var tried := Trying(c.name);
      match Compare(prims, c, rule.lhs, rule.rhs)
      case Less =>
        if throwOnFailure then Report([tried, RejectedNote], Rejected, Some(RejectedRule))
        else Report([tried, RejectedNote, Separator], Rejected, None)
      case NotGeneralizable =>
        var note := if rule.hasCond then ConditionUnsupportedNote else ConditionMissingNote;
        Report([tried, NotGeneralizableNote, note, Separator], NeedsCondition, None)
      case Equal =>
        var rest := TryOrders(prims, rule, order[1..], throwOnFailure);
        rest.(log := [tried, UndefinedOrderNote] + rest.log)
      case Greater =>
        Report([tried, AcceptedNote, Separator], Accepted, None)
  }

  /** The lexicographic product of the components: the first result other than `equal`, else `equal`. */
  function Lex<T>(prims: Primitives<T>, order: seq<Component>, lhs: T, rhs: T): (r: CompResult)
    ensures r == Equal <==> forall i :: 0 <= i < |order| ==> Compare(prims, order[i], lhs, rhs) == Equal
    ensures r != Equal ==> exists i :: 0 <= i < |order| && Compare(prims, order[i], lhs, rhs) == r
    decreases |order|
  {
    if order == [] then Equal
    else
      var c := Compare(prims, order[0], lhs, rhs);
      if c != Equal then c else Lex(prims, order[1..], lhs, rhs)
  }

  /** The verdict a comparison result stands for. */
  function VerdictOf(c: CompResult): Verdict {
    match c
    case Less => Rejected
    case NotGeneralizable => NeedsCondition
    case Equal => Unordered
    case Greater => Accepted
  }

  /**
   * A static rule's verdict is the lexicographic comparison of its sides, and the checker
   * throws exactly for a rejected or unordered rule in throwing mode.
   */
  lemma {:induction false} CheckRuleDecides<T>(prims: Primitives<T>, rule: Rule<T>, order: seq<Component>, throwOnFailure: bool)
    requires !rule.dynamicRhs
    ensures CheckRule(prims, rule, order, throwOnFailure).verdict == VerdictOf(Lex(prims, order, rule.lhs, rule.rhs))
    ensures CheckRule(prims, rule, order, throwOnFailure).error.Some? <==>
              throwOnFailure && Lex(prims, order, rule.lhs, rule.rhs) in {Less, Equal}
  {
    TryOrdersDecides(prims, rule, order, throwOnFailure);
  }

  lemma {:induction false} TryOrdersDecides<T>(prims: Primitives<T>, rule: Rule<T>, order: seq<Component>, throwOnFailure: bool)
    ensures TryOrders(prims, rule, order, throwOnFailure).verdict == VerdictOf(Lex(prims, order, rule.lhs, rule.rhs))
    ensures TryOrders(prims, rule, order, throwOnFailure).error.Some? <==>
              throwOnFailure && Lex(prims, order, rule.lhs, rule.rhs) in {Less, Equal}
    decreases |order|
  {
    if order != [] && Compare(prims, order[0], rule.lhs, rule.rhs) == Equal {
      TryOrdersDecides(prims, rule, order[1..], throwOnFailure);
    }
  }

  /**
   * The index of the first component whose result is not `equal` (the length of the list when
   * there is none): every component before it compares `equal`.
   */
  function FirstDecisive<T>(prims: Primitives<T>, order: seq<Component>, lhs: T, rhs: T): (k: nat)
    ensures k <= |order|
    ensures forall i :: 0 <= i < k ==> Compare(prims, order[i], lhs, rhs) == Equal
    ensures k < |order| ==> Compare(prims, order[k], lhs, rhs) != Equal
    decreases |order|
  {
    if order == [] || Compare(prims, order[0], lhs, rhs) != Equal then 0
    else 1 + FirstDecisive(prims, order[1..], lhs, rhs)
  }

  /**
   * The components are tried in order: the log names exactly the components up to and
   * including the first decisive one (all of them when there is none).
   */
  lemma {:induction false} TryOrdersTriesPrefix<T>(prims: Primitives<T>, rule: Rule<T>, order: seq<Component>, throwOnFailure: bool)
    ensures var k := FirstDecisive(prims, order, rule.lhs, rule.rhs);
            Tried(TryOrders(prims, rule, order, throwOnFailure).log) == Names(order[..if k < |order| then k + 1 else k])
    decreases |order|, 1
  {
    if order == [] {
      assert Tried([UnorderedNote]) == [];
    } else if Compare(prims, order[0], rule.lhs, rule.rhs) == Equal {
      TriesPrefixEqualStep(prims, rule, order, throwOnFailure);
    } else {
      TriesPrefixDecided(prims, rule, order, throwOnFailure);
      assert order[..1] == [order[0]];
    }
  }

  /** A first component answering `equal` is logged, then the search goes on with the rest. */
  lemma {:induction false} TriesPrefixEqualStep<T>(prims: Primitives<T>, rule: Rule<T>, order: seq<Component>, throwOnFailure: bool)
    requires order != [] && Compare(prims, order[0], rule.lhs, rule.rhs) == Equal
    ensures var k := FirstDecisive(prims, order, rule.lhs, rule.rhs);
            Tried(TryOrders(prims, rule, order, throwOnFailure).log) == Names(order[..if k < |order| then k + 1 else k])
    decreases |order|, 0
  {
    TryOrdersTriesPrefix(prims, rule, order[1..], throwOnFailure);
    var c := order[0];
    var n := FirstDecisive(prims, order[1..], rule.lhs, rule.rhs);
    var len := if n < |order[1..]| then n + 1 else n;
    var rest := TryOrders(prims, rule, order[1..], throwOnFailure);
    TriedAppend([Trying(c.name), UndefinedOrderNote], rest.log);
    assert Tried([Trying(c.name), UndefinedOrderNote]) == [c.name];
    assert order[..len + 1][1..] == order[1..][..len];
  }

  /** A first component not answering `equal` is the only one the log names. */
  lemma {:induction false} TriesPrefixDecided<T>(prims: Primitives<T>, rule: Rule<T>, order: seq<Component>, throwOnFailure: bool)
    requires order != [] && Compare(prims, order[0], rule.lhs, rule.rhs) != Equal
    ensures Tried(TryOrders(prims, rule, order, throwOnFailure).log) == [order[0].name]
  {
    var c := order[0];
    var log := TryOrders(prims, rule, order, throwOnFailure).log;
    assert log[0] == Trying(c.name);
    var tail := log[1..];
    assert Tried(tail) == [] by {
      assert |tail| <= 3 && forall i :: 0 <= i < |tail| ==> !tail[i].Trying?;
      NoTrying(tail);
    }
  }

  /**
   * The separator closes the log of a static rule exactly when a component decided it and
   * nothing was thrown: an unordered rule ends without it, and so does a rule rejected in
   * throwing mode, whose exception leaves before the separator is printed.
   */
  lemma {:induction false} SeparatorIffDecidedWithoutThrow<T>(prims: Primitives<T>, rule: Rule<T>, order: seq<Component>, throwOnFailure: bool)
    ensures var r := TryOrders(prims, rule, order, throwOnFailure);
            var c := Lex(prims, order, rule.lhs, rule.rhs);
            && r.log != []
            && (r.log[|r.log| - 1] == Separator <==> c != Equal && !(throwOnFailure && c == Less))
    decreases |order|
  {
    if order != [] && Compare(prims, order[0], rule.lhs, rule.rhs) == Equal {
      SeparatorIffDecidedWithoutThrow(prims, rule, order[1..], throwOnFailure);
      var rest := TryOrders(prims, rule, order[1..], throwOnFailure);
      var log := [Trying(order[0].name), UndefinedOrderNote] + rest.log;
      assert TryOrders(prims, rule, order, throwOnFailure).log == log;
      assert log[|log| - 1] == rest.log[|rest.log| - 1];
    }
  }

  /** The component names a log records as tried, in order. */
  function Tried(log: seq<LogLine>): (names: seq<string>)
    ensures |names| <= |log|
    ensures names == [] <==> forall i :: 0 <= i < |log| ==> !log[i].Trying?
    ensures log != [] && log[0].Trying? ==> names != [] && names[0] == log[0].name
  {
    if log == [] then []
    else if log[0].Trying? then [log[0].name] + Tried(log[1..])
    else Tried(log[1..])
  }

  /** Every name `Tried` extracts is that of a "trying order" line of the log. */
  lemma {:induction false} TriedFromTryingLines(log: seq<LogLine>)
    ensures forall j :: 0 <= j < |Tried(log)| ==> Trying(Tried(log)[j]) in log
    decreases |log|
  {
    if log != [] {
      TriedFromTryingLines(log[1..]);
      var rest := Tried(log[1..]);
      forall j | 0 <= j < |rest|
        ensures Trying(rest[j]) in log
      {
        assert Trying(rest[j]) in log[1..];
      }
    }
  }

  lemma {:induction false} NoTrying(log: seq<LogLine>)
    requires forall i :: 0 <= i < |log| ==> !log[i].Trying?
    ensures Tried(log) == []
    decreases |log|
  {
    if log != [] {
      NoTrying(log[1..]);
    }
  }

  lemma {:induction false} TriedAppend(a: seq<LogLine>, b: seq<LogLine>)
    ensures Tried(a + b) == Tried(a) + Tried(b)
    decreases |a|
  {
    if a != [] {
      TriedAppend(a[1..], b);
      assert (a + b)[0] == a[0] && (a + b)[1..] == a[1..] + b;
    } else {
      assert a + b == b;
    }
  }

  /** A rule with a computed right-hand side is never compared and never throws. */
  lemma DynamicRhsSkipped<T>(prims: Primitives<T>, rule: Rule<T>, order: seq<Component>, throwOnFailure: bool)
    requires rule.dynamicRhs
    ensures var r := CheckRule(prims, rule, order, throwOnFailure);
            r.verdict == DynamicRhs && r.error.None? && Tried(r.log) == []
  {
  }

  /** `not_generalizable` ends the check in both modes; the note says whether the rule has a condition. */
  lemma {:induction false} NotGeneralizableReport<T>(prims: Primitives<T>, rule: Rule<T>, order: seq<Component>, throwOnFailure: bool)
    requires !rule.dynamicRhs && Lex(prims, order, rule.lhs, rule.rhs) == NotGeneralizable
    ensures var r := TryOrders(prims, rule, order, throwOnFailure);
            && r.error.None?
            && (rule.hasCond ==> ConditionUnsupportedNote in r.log && ConditionMissingNote !in r.log)
            && (!rule.hasCond ==> ConditionMissingNote in r.log && ConditionUnsupportedNote !in r.log)
    decreases |order|
  {
    TryOrdersDecides(prims, rule, order, throwOnFailure);
    if Compare(prims, order[0], rule.lhs, rule.rhs) == Equal {
      NotGeneralizableReport(prims, rule, order[1..], throwOnFailure);
    }
  }

  /** The lexicographic product of two lists: the first list decides unless it is all `equal`. */
  lemma {:induction false} LexAppend<T>(prims: Primitives<T>, a: seq<Component>, b: seq<Component>, lhs: T, rhs: T)
    ensures Lex(prims, a + b, lhs, rhs) ==
              if Lex(prims, a, lhs, rhs) != Equal then Lex(prims, a, lhs, rhs) else Lex(prims, b, lhs, rhs)
    decreases |a|
  {
    if a != [] {
      assert (a + b)[0] == a[0] && (a + b)[1..] == a[1..] + b;
      LexAppend(prims, a[1..], b, lhs, rhs);
    } else {
      assert a + b == b;
    }
  }

  function Names(order: seq<Component>): (names: seq<string>)
    ensures |names| == |order| && forall i :: 0 <= i < |order| ==> names[i] == order[i].name
  {
    if order == [] then [] else [order[0].name] + Names(order[1..])
  }

  /** The joined order is the depth order followed by the operation-cost order. */
  lemma JoinedIsDepthThenCost()
    ensures JoinedOrder == DepthOrder + OpsCostOrder
  {
    assert JoinedOrder[..3] == DepthOrder;
    assert JoinedOrder[3..] == OpsCostOrder;
    assert JoinedOrder == JoinedOrder[..3] + JoinedOrder[3..];
  }

  /** So the joined order compares by depth first, and by cost only when all three depth components are `equal`. */
  lemma JoinedComparesDepthFirst<T>(prims: Primitives<T>, lhs: T, rhs: T)
    ensures Lex(prims, JoinedOrder, lhs, rhs) ==
              if Lex(prims, DepthOrder, lhs, rhs) != Equal then Lex(prims, DepthOrder, lhs, rhs)
              else Lex(prims, OpsCostOrder, lhs, rhs)
  {
    JoinedIsDepthThenCost();
    LexAppend(prims, DepthOrder, OpsCostOrder, lhs, rhs);
  }

  /** `const_op_count` is the only component that compares the sides swapped. */
  lemma OnlyConstOpCountSwapped()
    ensures forall i :: 0 <= i < |OpsCostOrder| ==> (OpsCostOrder[i].swapped <==> OpsCostOrder[i].name == "const_op_count")
    ensures forall i :: 0 <= i < |DepthOrder| ==> !DepthOrder[i].swapped
  {
  }

  /** `check_ruleset`: every rule of every group, in order; the first throw stops the rest. */
  function CheckRulesetLog<T>(prims: Primitives<T>, groups: seq<(string, seq<Rule<T>>)>, order: seq<Component>, throwOnFailure: bool)
    : (r: (seq<LogLine>, Option<CheckError>))
    ensures r.0 != [] && r.0[0] == RulesetHeader
    ensures r.1.Some? ==> throwOnFailure
  {
    var r := CheckGroups(prims, groups, order, throwOnFailure);
    ([RulesetHeader] + r.0, r.1)
  }

  function CheckGroups<T>(prims: Primitives<T>, groups: seq<(string, seq<Rule<T>>)>, order: seq<Component>, throwOnFailure: bool)
    : (r: (seq<LogLine>, Option<CheckError>))
    ensures r.1.Some? ==> throwOnFailure
    ensures groups != [] ==> r.0 != [] && r.0[0] == GroupHeader(groups[0].0)
    decreases |groups|
  {
    if groups == [] then ([], None)
    else
      var g := CheckRules(prims, groups[0].1, order, throwOnFailure);
      var head := [GroupHeader(groups[0].0)] + g.0;
      if g.1.Some? then (head, g.1)
      else
        var rest := CheckGroups(prims, groups[1..], order, throwOnFailure);
        (head + rest.0, rest.1)
  }

  function CheckRules<T>(prims: Primitives<T>, rules: seq<Rule<T>>, order: seq<Component>, throwOnFailure: bool)
    : (r: (seq<LogLine>, Option<CheckError>))
    ensures r.1.Some? ==> throwOnFailure
    ensures r.1.Some? ==> exists i :: 0 <= i < |rules| && !rules[i].dynamicRhs
    decreases |rules|
  {
    if rules == [] then ([], None)
    else
      var report := CheckRule(prims, rules[0], order, throwOnFailure);
      if report.error.Some? then (report.log, report.error)
      else
        var rest := CheckRules(prims, rules[1..], order, throwOnFailure);
        (report.log + rest.0, rest.1)
  }

  /** The rules in the order `check_ruleset` visits them. */
  function AllRules<T>(groups: seq<(string, seq<Rule<T>>)>): seq<Rule<T>>
    decreases |groups|
  {
    if groups == [] then [] else groups[0].1 + AllRules(groups[1..])
  }

  /**
   * A rule set throws exactly when some rule throws on its own, and then with the error of
   * the first such rule in visiting order.
   */
  lemma {:induction false} CheckRulesFirstError<T>(prims: Primitives<T>, rules: seq<Rule<T>>, order: seq<Component>, throwOnFailure: bool)
    ensures var r := CheckRules(prims, rules, order, throwOnFailure);
            && (r.1.None? <==> forall i :: 0 <= i < |rules| ==> CheckRule(prims, rules[i], order, throwOnFailure).error.None?)
            && (r.1.Some? ==> exists i :: && 0 <= i < |rules|
                                          && r.1 == CheckRule(prims, rules[i], order, throwOnFailure).error
                                          && forall j :: 0 <= j < i ==> CheckRule(prims, rules[j], order, throwOnFailure).error.None?)
    decreases |rules|
  {
    if rules != [] {
      CheckRulesFirstError(prims, rules[1..], order, throwOnFailure);
      var r := CheckRules(prims, rules, order, throwOnFailure);
      if CheckRule(prims, rules[0], order, throwOnFailure).error.None? {
        forall i | 0 < i < |rules|
          ensures CheckRule(prims, rules[i], order, throwOnFailure) == CheckRule(prims, rules[1..][i - 1], order, throwOnFailure)
        {
        }
        if r.1.Some? {
          var k :| && 0 <= k < |rules[1..]|
                   && r.1 == CheckRule(prims, rules[1..][k], order, throwOnFailure).error
                   && forall j :: 0 <= j < k ==> CheckRule(prims, rules[1..][j], order, throwOnFailure).error.None?;
          assert rules[1..][k] == rules[k + 1];
          forall j | 0 <= j < k + 1
            ensures CheckRule(prims, rules[j], order, throwOnFailure).error.None?
          {
            if j > 0 {
              assert rules[j] == rules[1..][j - 1];
            }
          }
        }
      } else {
        assert r.1 == CheckRule(prims, rules[0], order, throwOnFailure).error;
      }
    }
  }

  lemma {:induction false} CheckGroupsFirstError<T>(prims: Primitives<T>, groups: seq<(string, seq<Rule<T>>)>, order: seq<Component>, throwOnFailure: bool)
    ensures CheckGroups(prims, groups, order, throwOnFailure).1 == CheckRules(prims, AllRules(groups), order, throwOnFailure).1
    decreases |groups|
  {
    if groups != [] {
      CheckGroupsFirstError(prims, groups[1..], order, throwOnFailure);
      CheckRulesAppend(prims, groups[0].1, AllRules(groups[1..]), order, throwOnFailure);
    }
  }

  lemma {:induction false} CheckRulesAppend<T>(prims: Primitives<T>, a: seq<Rule<T>>, b: seq<Rule<T>>, order: seq<Component>, throwOnFailure: bool)
    ensures CheckRules(prims, a + b, order, throwOnFailure).1 ==
              if CheckRules(prims, a, order, throwOnFailure).1.Some? then CheckRules(prims, a, order, throwOnFailure).1
              else CheckRules(prims, b, order, throwOnFailure).1
    decreases |a|
  {
    if a != [] {
      assert (a + b)[0] == a[0] && (a + b)[1..] == a[1..] + b;
      CheckRulesAppend(prims, a[1..], b, order, throwOnFailure);
    } else {
      assert a + b == b;
    }
  }

  /** In the diagnostic mode the checker never throws. */
  lemma {:induction false} DiagnosticNeverThrows<T>(prims: Primitives<T>, rules: seq<Rule<T>>, order: seq<Component>)
    ensures CheckRules(prims, rules, order, false).1.None?
    decreases |rules|
  {
    if rules != [] {
      var rule := rules[0];
      if !rule.dynamicRhs {
        CheckRuleDecides(prims, rule, order, false);
      }
      DiagnosticNeverThrows(prims, rules[1..], order);
    }
  }

  /**
   * `mul(x, x) -> square(x)` under the operation-cost order: when the multiplication count
   * compares greater (one `mul` on the left, none on the right), the rule is accepted without
   * throwing, in either mode, after trying only `mul_count`.
   */
  lemma MulToSquareAccepted<T>(prims: Primitives<T>, lhs: T, rhs: T, throwOnFailure: bool)
    requires prims(ClassSubtermsCount(IsMul, IsCipher), lhs, rhs) == Greater
    ensures var r := CheckRule(prims, Rule(lhs, rhs, false, false), OpsCostOrder, throwOnFailure);
            r.verdict == Accepted && r.error.None? && Tried(r.log) == ["mul_count"]
  {
    var c := OpsCostOrder[0];
    assert c == Component("mul_count", ClassSubtermsCount(IsMul, IsCipher), false);
    var rule := Rule(lhs, rhs, false, false);
    var t := TryOrders(prims, rule, OpsCostOrder, throwOnFailure);
    assert t == Report([Trying("mul_count"), AcceptedNote, Separator], Accepted, None);
    TriedAppend([RuleHeader, Trying("mul_count")], [AcceptedNote, Separator]);
    assert [RuleHeader] + t.log == [RuleHeader, Trying("mul_count")] + [AcceptedNote, Separator];
  }
}
