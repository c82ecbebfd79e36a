/**
 The two interpreters of a rule tree.

 `EvaluateNode` answers yes or no and collects what matched; `StateOf` also knows "undetermined",
 for data that could not be obtained. Both read a stored JSON tree that may be malformed.
 */
module RuleEngine {
  import opened RuleOperators

  /** A stored tree; `Foreign` is an object whose "type" is neither "group" nor "condition". */
  datatype Node =
    | Group(op: GroupOp, children: Children)
    | Condition(field: string, operator: Operator, expected: Value)
    | Foreign(children: Children)

  datatype GroupOp = And | Or | InvalidOp

  datatype Children = NotAList | ListOf(items: seq<Child>)

  datatype Child = Object(node: Node) | NotAnObject

  type Context = map<string, Value>

  /** The test of one condition against the value found for its field. */
  type ConditionTest = (string, Operator, Value, Value) -> bool

  datatype Reason = Reason(field: string, operator: Operator, expected: Value, actual: Value)

  /** `context.get(field)`: an absent field reads like an empty one. */
  function Get(context: Context, field: string): Value {
    if field in context then context[field] else Nothing
  }

  /** How a matched value is reported: points in time in ISO format. */
  function Rendered(v: Value, isoFormat: int -> string): Value {
    if v.DateTime? then Text(isoFormat(v.microseconds)) else v
  }

  ghost predicate FailsOnUnavailable(test: ConditionTest) {
    forall f, o, e :: !test(f, o, e, Unavailable)
  }

  function OperatorTest(h: Helpers): ConditionTest {
    (f, o, e, a) => MatchesOperator(h, f, o, e, a)
  }

  lemma OperatorTestFailsOnUnavailable(h: Helpers)
    ensures FailsOnUnavailable(OperatorTest(h))
  {
  }

  /** A group that is evaluated at all: a known operator and a non-empty list of objects. */
  predicate WellShaped(op: GroupOp, children: Children) {
    && op != InvalidOp && children.ListOf? && children.items != []
    && forall i :: 0 <= i < |children.items| ==> children.items[i].Object?
  }

  // ---- the two-valued meaning of a tree ----

  function Holds(node: Node, context: Context, test: ConditionTest): bool
    decreases node, 1
  {
    match node
    case Group(op, children) =>
      WellShaped(op, children) &&
      (if op == Or then AnyHolds(children.items, context, test) else AllHold(children.items, context, test))
    case Condition(field, operator, expected) => test(field, operator, expected, Get(context, field))
    case Foreign(_) => false
  }

  function ChildHolds(child: Child, context: Context, test: ConditionTest): bool
    decreases child, 2
  {
    child.Object? && Holds(child.node, context, test)
  }

  function AllHold(children: seq<Child>, context: Context, test: ConditionTest): bool
    decreases children, 0
  {
    children == [] || (ChildHolds(children[0], context, test) && AllHold(children[1..], context, test))
  }

  function AnyHolds(children: seq<Child>, context: Context, test: ConditionTest): bool
    decreases children, 0
  {
    children != [] && (ChildHolds(children[0], context, test) || AnyHolds(children[1..], context, test))
  }

  /** Evaluated at all in the words of the stored tree: a list of objects, and not an empty one. */
  ghost predicate IsListOfObjects(children: Children) {
    && children.ListOf? && |children.items| > 0
    && forall i :: 0 <= i < |children.items| ==> children.items[i].Object?
  }

  /**
   What an answer has to be, one level down: `and` asks for every child and `or` for one, a condition
   asks its test about the value of its field, and everything malformed or foreign is answered with no.
   */
  ghost predicate IsAnswer(node: Node, context: Context, test: ConditionTest, ok: bool) {
    match node
    case Group(And, children) =>
      ok <==> IsListOfObjects(children) && forall i :: 0 <= i < |children.items| ==> Holds(children.items[i].node, context, test)
    case Group(Or, children) =>
      ok <==> IsListOfObjects(children) && exists i :: 0 <= i < |children.items| && Holds(children.items[i].node, context, test)
    case Group(InvalidOp, _) => !ok
    case Condition(field, operator, expected) =>
      if field in context then ok == test(field, operator, expected, context[field])
      else ok == test(field, operator, expected, Nothing)
    case Foreign(_) => !ok
  }

  lemma {:induction false} AllAndAnyHoldIff(children: seq<Child>, context: Context, test: ConditionTest)
    ensures AllHold(children, context, test) <==> forall i :: 0 <= i < |children| ==> ChildHolds(children[i], context, test)
    ensures AnyHolds(children, context, test) <==> exists i :: 0 <= i < |children| && ChildHolds(children[i], context, test)
  {
    if children != [] {
      var rest := children[1..];
      AllAndAnyHoldIff(rest, context, test);
      assert forall i :: 0 < i < |children| ==> children[i] == rest[i - 1];
      assert forall i :: 0 <= i < |rest| ==> rest[i] == children[i + 1];
    }
  }

  /** An `and` group of objects holds exactly when every child holds, an `or` group exactly when some child does. */
  lemma GroupHoldsIff(items: seq<Child>, context: Context, test: ConditionTest)
    requires |items| > 0 && forall i :: 0 <= i < |items| ==> items[i].Object?
    ensures Holds(Group(And, ListOf(items)), context, test) <==> forall i :: 0 <= i < |items| ==> Holds(items[i].node, context, test)
    ensures Holds(Group(Or, ListOf(items)), context, test) <==> exists i :: 0 <= i < |items| && Holds(items[i].node, context, test)
  {
    AllAndAnyHoldIff(items, context, test);
    assert forall i :: 0 <= i < |items| ==> ChildHolds(items[i], context, test) == Holds(items[i].node, context, test);
  }

  /** The meaning of a tree is what an answer has to be, and fixes it. */
  lemma HoldsIsTheAnswer(node: Node, context: Context, test: ConditionTest, ok: bool)
    ensures IsAnswer(node, context, test, ok) <==> ok == Holds(node, context, test)
  {
    if node.Group? && IsListOfObjects(node.children) {
      GroupHoldsIff(node.children.items, context, test);
      assert node.children == ListOf(node.children.items);
    }
  }

  /** The reasons a matching tree reports, left to right; a failing `or` branch contributes none. */
  function ReasonsOf(node: Node, context: Context, test: ConditionTest): seq<Reason>
    decreases node, 1
  {
    match node
    case Group(_, children) =>
      if children.ListOf? then ReasonsOfAll(children.items, context, test) else []
    case Condition(field, operator, expected) => [Reason(field, operator, expected, Get(context, field))]
    case Foreign(_) => []
  }

  function ReasonsOfAll(children: seq<Child>, context: Context, test: ConditionTest): seq<Reason>
    decreases children, 0
  {
    if children == [] then []
    else
      ReasonsOfChild(children[0], context, test) + ReasonsOfAll(children[1..], context, test)
  }

  function ReasonsOfChild(child: Child, context: Context, test: ConditionTest): seq<Reason>
    decreases child, 2
  {
    if ChildHolds(child, context, test) then ReasonsOf(child.node, context, test) else []
  }

  /** `known` after each reason has reported the value of its field; the last report stands. */
  function Report(known: map<string, Value>, reasons: seq<Reason>, isoFormat: int -> string): map<string, Value> {
    if reasons == [] then known
    else
      var last := reasons[|reasons| - 1];
      Report(known, reasons[..|reasons| - 1], isoFormat)[last.field := Rendered(last.actual, isoFormat)]
  }

  function MatchedBy(reasons: seq<Reason>, isoFormat: int -> string): map<string, Value> {
    Report(map[], reasons, isoFormat)
  }

  lemma {:induction false} ReportConcat(known: map<string, Value>, a: seq<Reason>, b: seq<Reason>, isoFormat: int -> string)
    ensures Report(Report(known, a, isoFormat), b, isoFormat) == Report(known, a + b, isoFormat)
  {
    if b == [] {
      assert a + b == a;
    } else {
      var front := b[..|b| - 1];
      ReportConcat(known, a, front, isoFormat);
      assert (a + b)[..|a + b| - 1] == a + front;
    }
  }

  /** Merging what a branch matched is the same as reporting its reasons. */
  lemma {:induction false} MergeIsReport(known: map<string, Value>, reasons: seq<Reason>, isoFormat: int -> string)
    ensures known + MatchedBy(reasons, isoFormat) == Report(known, reasons, isoFormat)
  {
    if reasons != [] {
      MergeIsReport(known, reasons[..|reasons| - 1], isoFormat);
    }
  }

  // ---- the evaluator that collects as it goes ----

  /** The two buffers an evaluation appends to. */
  class Findings {
    var matched: map<string, Value>
    var reasons: seq<Reason>

    constructor ()
      ensures matched == map[] && reasons == []
    {
      matched := map[];
      reasons := [];
    }
  }

  method EvaluateCondition(field: string, operator: Operator, expected: Value, context: Context,
                           test: ConditionTest, isoFormat: int -> string, findings: Findings)
    returns (ok: bool)
    modifies findings
    ensures ok == Holds(Condition(field, operator, expected), context, test)
    ensures !ok ==> unchanged(findings)
    ensures ok ==> findings.reasons == old(findings.reasons) + ReasonsOf(Condition(field, operator, expected), context, test)
    ensures ok ==> findings.matched == Report(old(findings.matched), ReasonsOf(Condition(field, operator, expected), context, test), isoFormat)
  {
    var actual := Get(context, field);
    if !test(field, operator, expected, actual) {
      return false;
    }
    findings.matched := findings.matched[field := Rendered(actual, isoFormat)];
    findings.reasons := findings.reasons + [Reason(field, operator, expected, actual)];
    ok := true;
  }

  method EvaluateNode(node: Node, context: Context, test: ConditionTest, isoFormat: int -> string, findings: Findings)
    returns (ok: bool)
    modifies findings
    ensures ok == Holds(node, context, test) && IsAnswer(node, context, test, ok)
    ensures ok ==> findings.reasons == old(findings.reasons) + ReasonsOf(node, context, test)
    ensures ok ==> findings.matched == Report(old(findings.matched), ReasonsOf(node, context, test), isoFormat)
    decreases node, 1
  {
    HoldsIsTheAnswer(node, context, test, Holds(node, context, test));
    match node
    case Foreign(_) => ok := false;
    case Condition(field, operator, expected) =>
      ok := EvaluateCondition(field, operator, expected, context, test, isoFormat, findings);
    case Group(op, children) =>
      if !WellShaped(op, children) {
        return false;
      }
      if op == Or {
        ok := EvaluateOr(children.items, context, test, isoFormat, findings);
      } else {
        ok := EvaluateAnd(children.items, context, test, isoFormat, findings);
      }
  }

  method EvaluateChild(child: Child, context: Context, test: ConditionTest, isoFormat: int -> string, findings: Findings)
    returns (ok: bool)
    requires child.Object?
    modifies findings
    ensures ok == ChildHolds(child, context, test)
    ensures ok ==> findings.reasons == old(findings.reasons) + ReasonsOfChild(child, context, test)
    ensures ok ==> findings.matched == Report(old(findings.matched), ReasonsOfChild(child, context, test), isoFormat)
    decreases child, 2
  {
    ok := EvaluateNode(child.node, context, test, isoFormat, findings);
  }

  /** Unrolls the meaning of the children from position `i` by one child. */
  lemma Unroll(children: seq<Child>, i: nat, context: Context, test: ConditionTest)
    requires i < |children|
    ensures AllHold(children[i..], context, test)
      == (ChildHolds(children[i], context, test) && AllHold(children[i + 1..], context, test))
    ensures AnyHolds(children[i..], context, test)
      == (ChildHolds(children[i], context, test) || AnyHolds(children[i + 1..], context, test))
    ensures ReasonsOfAll(children[i..], context, test)
      == ReasonsOfChild(children[i], context, test) + ReasonsOfAll(children[i + 1..], context, test)
  {
    assert children[i..][0] == children[i] && children[i..][1..] == children[i + 1..];
  }

  /** What one branch of an `or` group collected on its own. */
  datatype Branch = Branch(matched: map<string, Value>, reasons: seq<Reason>)

  ghost function Flatten(branches: seq<Branch>): seq<Reason> {
    if branches == [] then [] else Flatten(branches[..|branches| - 1]) + branches[|branches| - 1].reasons
  }

  lemma FlattenAppend(branches: seq<Branch>, b: Branch)
    ensures Flatten(branches + [b]) == Flatten(branches) + b.reasons
  {
    assert (branches + [b])[..|branches|] == branches;
  }

  ghost predicate OwnMatches(branches: seq<Branch>, isoFormat: int -> string) {
    forall k :: 0 <= k < |branches| ==> branches[k].matched == MatchedBy(branches[k].reasons, isoFormat)
  }

  method CopyBranch(branch: Branch, ghost isoFormat: int -> string, findings: Findings)
    requires branch.matched == MatchedBy(branch.reasons, isoFormat)
    modifies findings
    ensures findings.reasons == old(findings.reasons) + branch.reasons
    ensures findings.matched == Report(old(findings.matched), branch.reasons, isoFormat)
  {
    MergeIsReport(findings.matched, branch.reasons, isoFormat);
    findings.matched := findings.matched + branch.matched;
    findings.reasons := findings.reasons + branch.reasons;
  }

  lemma CopyOneMore(branches: seq<Branch>, k: nat, known: map<string, Value>, isoFormat: int -> string)
    requires k < |branches|
    ensures Flatten(branches[..k + 1]) == Flatten(branches[..k]) + branches[k].reasons
    ensures Report(known, Flatten(branches[..k + 1]), isoFormat)
      == Report(Report(known, Flatten(branches[..k]), isoFormat), branches[k].reasons, isoFormat)
  {
    FlattenAppend(branches[..k], branches[k]);
    assert branches[..k] + [branches[k]] == branches[..k + 1];
    ReportConcat(known, Flatten(branches[..k]), branches[k].reasons, isoFormat);
  }

  method CopyBranches(branches: seq<Branch>, ghost isoFormat: int -> string, findings: Findings)
    requires OwnMatches(branches, isoFormat)
    modifies findings
    ensures findings.reasons == old(findings.reasons) + Flatten(branches)
    ensures findings.matched == Report(old(findings.matched), Flatten(branches), isoFormat)
  {
    ghost var known := findings.matched;
    ghost var before := findings.reasons;
    for k := 0 to |branches|
      invariant findings.reasons == before + Flatten(branches[..k])
      invariant findings.matched == Report(known, Flatten(branches[..k]), isoFormat)
    {
      CopyBranch(branches[k], isoFormat, findings);
      CopyOneMore(branches, k, known, isoFormat);
    }
    assert branches[..|branches|] == branches;
  }

  /** A branch is evaluated into buffers of its own; the caller's are not touched. */
  method EvaluateBranch(child: Child, context: Context, test: ConditionTest, isoFormat: int -> string)
    returns (matches: bool, branch: Branch)
    requires child.Object?
    ensures matches == ChildHolds(child, context, test)
    ensures matches ==> branch.reasons == ReasonsOfChild(child, context, test)
    ensures matches ==> branch.matched == MatchedBy(branch.reasons, isoFormat)
    decreases child, 3
  {
    var own := new Findings();
    matches := EvaluateChild(child, context, test, isoFormat, own);
    branch := Branch(own.matched, own.reasons);
    assert matches ==> branch.reasons == [] + ReasonsOfChild(child, context, test);
  }

  /** What has been collected from the children before `i`, seen together with what the others would add. */
  ghost predicate CollectedUpTo(branches: seq<Branch>, children: seq<Child>, i: nat, context: Context, test: ConditionTest, isoFormat: int -> string) {
    && i <= |children|
    && (branches != [] || AnyHolds(children[i..], context, test) <==> AnyHolds(children, context, test))
    && Flatten(branches) + ReasonsOfAll(children[i..], context, test) == ReasonsOfAll(children, context, test)
    && OwnMatches(branches, isoFormat)
  }

  lemma NothingCollected(children: seq<Child>, context: Context, test: ConditionTest, isoFormat: int -> string)
    ensures CollectedUpTo([], children, 0, context, test, isoFormat)
  {
    assert children[0..] == children;
  }

  lemma SkipOne(branches: seq<Branch>, children: seq<Child>, i: nat, context: Context, test: ConditionTest, isoFormat: int -> string)
    requires CollectedUpTo(branches, children, i, context, test, isoFormat) && i < |children|
    requires !ChildHolds(children[i], context, test)
    ensures CollectedUpTo(branches, children, i + 1, context, test, isoFormat)
  {
    Unroll(children, i, context, test);
    assert ReasonsOfChild(children[i], context, test) == [];
  }

  lemma CollectOne(branches: seq<Branch>, branch: Branch, children: seq<Child>, i: nat, context: Context, test: ConditionTest, isoFormat: int -> string)
    requires CollectedUpTo(branches, children, i, context, test, isoFormat) && i < |children|
    requires ChildHolds(children[i], context, test) && branch.reasons == ReasonsOfChild(children[i], context, test)
    requires branch.matched == MatchedBy(branch.reasons, isoFormat)
    ensures CollectedUpTo(branches + [branch], children, i + 1, context, test, isoFormat)
  {
    Unroll(children, i, context, test);
    FlattenAppend(branches, branch);
    var rest := ReasonsOfAll(children[i + 1..], context, test);
    assert (Flatten(branches) + branch.reasons) + rest == Flatten(branches) + (branch.reasons + rest);
  }

  lemma AllCollected(branches: seq<Branch>, children: seq<Child>, context: Context, test: ConditionTest, isoFormat: int -> string)
    requires CollectedUpTo(branches, children, |children|, context, test, isoFormat)
    ensures branches != [] <==> AnyHolds(children, context, test)
    ensures Flatten(branches) == ReasonsOfAll(children, context, test)
  {
    assert children[|children|..] == [];
  }

  method CollectBranches(children: seq<Child>, context: Context, test: ConditionTest, isoFormat: int -> string)
    returns (branches: seq<Branch>)
    requires forall i :: 0 <= i < |children| ==> children[i].Object?
    ensures branches != [] <==> AnyHolds(children, context, test)
    ensures Flatten(branches) == ReasonsOfAll(children, context, test) && OwnMatches(branches, isoFormat)
    decreases children, 0
  {
    branches := [];
    NothingCollected(children, context, test, isoFormat);
    for i := 0 to |children|
      invariant CollectedUpTo(branches, children, i, context, test, isoFormat)
    {
      var matches, branch := EvaluateBranch(children[i], context, test, isoFormat);
      if matches {
        CollectOne(branches, branch, children, i, context, test, isoFormat);
        branches := branches + [branch];
      } else {
        SkipOne(branches, children, i, context, test, isoFormat);
      }
    }
    AllCollected(branches, children, context, test, isoFormat);
  }

  /** Only matching branches are copied over. */
  method EvaluateOr(children: seq<Child>, context: Context, test: ConditionTest, isoFormat: int -> string, findings: Findings)
    returns (ok: bool)
    requires forall i :: 0 <= i < |children| ==> children[i].Object?
    modifies findings
    ensures ok == AnyHolds(children, context, test)
    ensures !ok ==> unchanged(findings)
    ensures ok ==> findings.reasons == old(findings.reasons) + ReasonsOfAll(children, context, test)
    ensures ok ==> findings.matched == Report(old(findings.matched), ReasonsOfAll(children, context, test), isoFormat)
    decreases children, 1
  {
    var branches := CollectBranches(children, context, test, isoFormat);
    if branches == [] {
      return false;
    }
    CopyBranches(branches, isoFormat, findings);
    ok := true;
  }

  lemma OneMoreHolds(children: seq<Child>, i: nat, collected: seq<Reason>, known: map<string, Value>,
                     context: Context, test: ConditionTest, isoFormat: int -> string)
    requires i < |children| && ChildHolds(children[i], context, test)
    requires collected + ReasonsOfAll(children[i..], context, test) == ReasonsOfAll(children, context, test)
    ensures var own := ReasonsOfChild(children[i], context, test);
      && (collected + own) + ReasonsOfAll(children[i + 1..], context, test) == ReasonsOfAll(children, context, test)
      && Report(Report(known, collected, isoFormat), own, isoFormat) == Report(known, collected + own, isoFormat)
      && AllHold(children[i..], context, test) == AllHold(children[i + 1..], context, test)
  {
    var own := ReasonsOfChild(children[i], context, test);
    Unroll(children, i, context, test);
    ReportConcat(known, collected, own, isoFormat);
    var rest := ReasonsOfAll(children[i + 1..], context, test);
    assert (collected + own) + rest == collected + (own + rest);
  }

  /** Children write straight into the caller's buffers, and the first failure stops the group. */
  method EvaluateAnd(children: seq<Child>, context: Context, test: ConditionTest, isoFormat: int -> string, findings: Findings)
    returns (ok: bool)
    requires forall i :: 0 <= i < |children| ==> children[i].Object?
    modifies findings
    ensures ok == AllHold(children, context, test)
    ensures ok ==> findings.reasons == old(findings.reasons) + ReasonsOfAll(children, context, test)
    ensures ok ==> findings.matched == Report(old(findings.matched), ReasonsOfAll(children, context, test), isoFormat)
    decreases children, 0
  {
    ghost var known := findings.matched;
    ghost var before := findings.reasons;
    ghost var collected: seq<Reason> := [];
    assert children[0..] == children;
    for i := 0 to |children|
      invariant AllHold(children[i..], context, test) <==> AllHold(children, context, test)
      invariant collected + ReasonsOfAll(children[i..], context, test) == ReasonsOfAll(children, context, test)
      invariant findings.reasons == before + collected
      invariant findings.matched == Report(known, collected, isoFormat)
    {
      var matches := EvaluateChild(children[i], context, test, isoFormat, findings);
      if !matches {
        Unroll(children, i, context, test);
        return false;
      }
      OneMoreHolds(children, i, collected, known, context, test, isoFormat);
      collected := collected + ReasonsOfChild(children[i], context, test);
    }
    assert children[|children|..] == [];
    assert collected == ReasonsOfAll(children, context, test);
    ok := true;
  }
}
