/**
 What an evaluation depends on: nothing outside the collected conditions, and on success nothing
 outside the fields reported as matched.
 */
module RuleWitness {
  import opened Common
  import opened RuleOperators
  import opened RuleEngine
  import opened RuleState

  /** The condition objects below a node, through groups of any shape, optionally of one field only. */
  function ConditionNodes(node: Node, field: Option<string>): (nodes: seq<Node>)
    ensures forall n :: n in nodes ==> n.Condition? && (field.Some? ==> n.field == field.value)
    decreases node, 1
  {
    match node
    case Condition(f, _, _) => if field.None? || f == field.value then [node] else []
    case Group(_, children) => if children.ListOf? then ConditionNodesOfAll(children.items, field) else []
    case Foreign(children) => if children.ListOf? then ConditionNodesOfAll(children.items, field) else []
  }

  function ConditionNodesOfChild(child: Child, field: Option<string>): (nodes: seq<Node>)
    ensures forall n :: n in nodes ==> n.Condition? && (field.Some? ==> n.field == field.value)
    decreases child, 2
  {
    if child.Object? then ConditionNodes(child.node, field) else []
  }

  function ConditionNodesOfAll(children: seq<Child>, field: Option<string>): (nodes: seq<Node>)
    ensures forall n :: n in nodes ==> n.Condition? && (field.Some? ==> n.field == field.value)
    decreases children, 0
  {
    if children == [] then []
    else ConditionNodesOfChild(children[0], field) + ConditionNodesOfAll(children[1..], field)
  }

  ghost predicate AgreeOnNodes(nodes: seq<Node>, context: Context, context': Context)
    requires forall n :: n in nodes ==> n.Condition?
  {
    forall n :: n in nodes ==> Get(context, n.field) == Get(context', n.field)
  }

  /** Everything an evaluation yields is a function of the collected fields, malformed trees included. */
  lemma {:induction false} OnlyCollectedFieldsMatter(node: Node, context: Context, context': Context, test: ConditionTest)
    requires AgreeOnNodes(ConditionNodes(node, None), context, context')
    ensures Holds(node, context, test) == Holds(node, context', test)
    ensures StateOf(node, context, test) == StateOf(node, context', test)
    ensures ReasonsOf(node, context, test) == ReasonsOf(node, context', test)
    decreases node, 1
  {
    match node
    case Condition(f, _, _) =>
      assert node in ConditionNodes(node, None);
    case Foreign(_) =>
    case Group(_, children) =>
      if children.ListOf? {
        OnlyCollectedFieldsMatterBelow(children.items, context, context', test);
      }
  }

  lemma {:induction false} OnlyCollectedFieldsMatterToChild(child: Child, context: Context, context': Context, test: ConditionTest)
    requires AgreeOnNodes(ConditionNodesOfChild(child, None), context, context')
    ensures ChildHolds(child, context, test) == ChildHolds(child, context', test)
    ensures StateOfChild(child, context, test) == StateOfChild(child, context', test)
    ensures ReasonsOfChild(child, context, test) == ReasonsOfChild(child, context', test)
    decreases child, 2
  {
    if child.Object? {
      OnlyCollectedFieldsMatter(child.node, context, context', test);
    }
  }

  lemma {:induction false} OnlyCollectedFieldsMatterBelow(children: seq<Child>, context: Context, context': Context, test: ConditionTest)
    requires AgreeOnNodes(ConditionNodesOfAll(children, None), context, context')
    ensures AllHold(children, context, test) == AllHold(children, context', test)
    ensures AnyHolds(children, context, test) == AnyHolds(children, context', test)
    ensures StatesOf(children, context, test) == StatesOf(children, context', test)
    ensures ReasonsOfAll(children, context, test) == ReasonsOfAll(children, context', test)
    decreases children, 0
  {
    if children != [] {
      OnlyCollectedFieldsMatterToChild(children[0], context, context', test);
      OnlyCollectedFieldsMatterBelow(children[1..], context, context', test);
    }
  }

  // ---- what is collected ----

  /** What stands at a path of positions, through objects of any shape that have a list of children. */
  ghost function NodeAt(node: Node, path: seq<nat>): Option<Node>
    decreases |path|
  {
    if path == [] then Some(node)
    else if node.Condition? || node.children.NotAList? || path[0] >= |node.children.items| then None
    else if node.children.items[path[0]].NotAnObject? then None
    else NodeAt(node.children.items[path[0]].node, path[1..])
  }

  lemma {:induction false} CollectedOfAll(children: seq<Child>, n: Node)
    ensures n in ConditionNodesOfAll(children, None) <==>
      exists i :: 0 <= i < |children| && n in ConditionNodesOfChild(children[i], None)
  {
    if children != [] {
      var rest := children[1..];
      CollectedOfAll(rest, n);
      assert forall i :: 0 < i < |children| ==> children[i] == rest[i - 1];
      assert forall i :: 0 <= i < |rest| ==> rest[i] == children[i + 1];
    }
  }

  lemma {:induction false} CollectedHasPath(node: Node, n: Node) returns (path: seq<nat>)
    requires n in ConditionNodes(node, None)
    ensures NodeAt(node, path) == Some(n)
    decreases node, 1
  {
    path := [];
    if !node.Condition? {
      var items := node.children.items;
      CollectedOfAll(items, n);
      var i :| 0 <= i < |items| && n in ConditionNodesOfChild(items[i], None);
      var below := CollectedOfChildHasPath(items[i], n);
      path := [i] + below;
      assert path[1..] == below;
    }
  }

  lemma {:induction false} CollectedOfChildHasPath(child: Child, n: Node) returns (path: seq<nat>)
    requires n in ConditionNodesOfChild(child, None)
    ensures child.Object? && NodeAt(child.node, path) == Some(n)
    decreases child, 2
  {
    path := CollectedHasPath(child.node, n);
  }

  lemma {:induction false} PathIsCollected(node: Node, path: seq<nat>, n: Node)
    requires NodeAt(node, path) == Some(n) && n.Condition?
    ensures n in ConditionNodes(node, None)
    decreases |path|
  {
    if path != [] {
      var items := node.children.items;
      PathIsCollected(items[path[0]].node, path[1..], n);
      CollectedOfAll(items, n);
    }
  }

  /** Exactly the conditions that some path leads to are collected, malformed groups and foreign objects included. */
  lemma CollectedIff(node: Node, n: Node)
    ensures n in ConditionNodes(node, None) <==> n.Condition? && exists path: seq<nat> :: NodeAt(node, path) == Some(n)
  {
    if n in ConditionNodes(node, None) {
      var path: seq<nat> := CollectedHasPath(node, n);
      assert NodeAt(node, path) == Some(n);
    }
    forall path: seq<nat> | NodeAt(node, path) == Some(n) && n.Condition? ensures n in ConditionNodes(node, None) {
      PathIsCollected(node, path, n);
    }
  }

  // ---- skipping the disk lookup ----

  const FREE_BYTES: string := "disk.free_bytes"
  const FREE_PERCENT: string := "disk.free_percent"

  predicate UsesDiskFields(root: Node) {
    ConditionNodes(root, Some(FREE_BYTES)) != [] || ConditionNodes(root, Some(FREE_PERCENT)) != []
  }

  /**
   The context of one item: `facts` are its fields other than disk space (none of them when the scope
   and the item do not fit), `disk` is what the resolver would answer.
   */
  function BuildContext(facts: Option<Context>, disk: Option<(Value, Value)>, computeDisk: bool): Context {
    match facts
    case None => map[]
    case Some(fields) =>
      var found := if computeDisk then disk else None;
      fields[FREE_BYTES := if found.Some? then found.value.0 else Nothing]
            [FREE_PERCENT := if found.Some? then found.value.1 else Nothing]
  }

  /** Asking the collector for one field finds exactly the conditions on it. */
  lemma {:induction false} FilteredCollection(node: Node, n: Node, field: string)
    ensures n in ConditionNodes(node, Some(field)) <==> n in ConditionNodes(node, None) && n.field == field
    decreases node, 1
  {
    match node
    case Condition(_, _, _) =>
    case Group(_, children) =>
      if children.ListOf? { FilteredCollectionBelow(children.items, n, field); }
    case Foreign(children) =>
      if children.ListOf? { FilteredCollectionBelow(children.items, n, field); }
  }

  lemma {:induction false} FilteredCollectionOfChild(child: Child, n: Node, field: string)
    ensures n in ConditionNodesOfChild(child, Some(field)) <==> n in ConditionNodesOfChild(child, None) && n.field == field
    decreases child, 2
  {
    if child.Object? {
      FilteredCollection(child.node, n, field);
    }
  }

  lemma {:induction false} FilteredCollectionBelow(children: seq<Child>, n: Node, field: string)
    ensures n in ConditionNodesOfAll(children, Some(field)) <==> n in ConditionNodesOfAll(children, None) && n.field == field
    decreases children, 0
  {
    if children != [] {
      FilteredCollectionOfChild(children[0], n, field);
      FilteredCollectionBelow(children[1..], n, field);
    }
  }

  ghost predicate MentionsField(root: Node, field: string) {
    exists path: seq<nat> :: NodeAt(root, path).Some? && NodeAt(root, path).value.Condition? && NodeAt(root, path).value.field == field
  }

  lemma MentionsIff(root: Node, field: string)
    ensures ConditionNodes(root, Some(field)) != [] <==> MentionsField(root, field)
  {
    var found := ConditionNodes(root, Some(field));
    if found != [] {
      var n := found[0];
      assert n in found;
      FilteredCollection(root, n, field);
      var path: seq<nat> := CollectedHasPath(root, n);
      assert NodeAt(root, path) == Some(n);
    }
    forall path: seq<nat> | NodeAt(root, path).Some? && NodeAt(root, path).value.Condition? && NodeAt(root, path).value.field == field
      ensures found != []
    {
      PathIsCollected(root, path, NodeAt(root, path).value);
      FilteredCollection(root, NodeAt(root, path).value, field);
    }
  }

  /** The disk is looked up exactly for rules with a condition on free bytes or free percent somewhere in them. */
  lemma UsesDiskFieldsIff(root: Node)
    ensures UsesDiskFields(root) <==> MentionsField(root, "disk.free_bytes") || MentionsField(root, "disk.free_percent")
  {
    MentionsIff(root, "disk.free_bytes");
    MentionsIff(root, "disk.free_percent");
  }

  /** The two disk fields hold what the lookup found, or nothing; every other field is the item's own. */
  lemma ContextFields(facts: Context, disk: Option<(Value, Value)>, f: string)
    ensures BuildContext(None, disk, true) == map[]
    ensures var context := BuildContext(Some(facts), disk, true);
      && Get(context, "disk.free_bytes") == (if disk.Some? then disk.value.0 else Nothing)
      && Get(context, "disk.free_percent") == (if disk.Some? then disk.value.1 else Nothing)
      && (f != "disk.free_bytes" && f != "disk.free_percent" ==> (f in context <==> f in facts) && Get(context, f) == Get(facts, f))
  {
    assert FREE_PERCENT[5..] != FREE_BYTES[5..];
  }

  /** Looking disk statistics up only for rules that mention them never changes an outcome. */
  lemma SkippingDiskIsInvisible(root: Node, facts: Option<Context>, disk: Option<(Value, Value)>, test: ConditionTest)
    ensures var lazy := BuildContext(facts, disk, UsesDiskFields(root));
      var eager := BuildContext(facts, disk, true);
      && Holds(root, lazy, test) == Holds(root, eager, test)
      && StateOf(root, lazy, test) == StateOf(root, eager, test)
      && ReasonsOf(root, lazy, test) == ReasonsOf(root, eager, test)
  {
    var lazy := BuildContext(facts, disk, UsesDiskFields(root));
    var eager := BuildContext(facts, disk, true);
    forall n | n in ConditionNodes(root, None) ensures Get(lazy, n.field) == Get(eager, n.field) {
      FilteredCollection(root, n, FREE_BYTES);
      FilteredCollection(root, n, FREE_PERCENT);
    }
    OnlyCollectedFieldsMatter(root, lazy, eager, test);
  }

  /**
   The entry point: the disk lookup is skipped when it can be, a failing rule reports nothing, and
   the outcome is that of the full context. `root` is absent when the definition is unusable.
   */
  method EvaluateAdvancedRule(root: Option<Node>, facts: Option<Context>, disk: Option<(Value, Value)>,
                              test: ConditionTest, isoFormat: int -> string)
    returns (ok: bool, matched: map<string, Value>, reasons: seq<Reason>)
    ensures ok <==> root.Some? && Holds(root.value, BuildContext(facts, disk, true), test)
    ensures reasons == if ok then ReasonsOf(root.value, BuildContext(facts, disk, true), test) else []
    ensures matched == MatchedBy(reasons, isoFormat)
  {
    if root.None? {
      return false, map[], [];
    }
    SkippingDiskIsInvisible(root.value, facts, disk, test);
    var context := BuildContext(facts, disk, UsesDiskFields(root.value));
    var findings := new Findings();
    ok := EvaluateNode(root.value, context, test, isoFormat, findings);
    if !ok {
      return false, map[], [];
    }
    matched, reasons := findings.matched, findings.reasons;
  }

  // ---- the reported fields as a witness ----

  ghost predicate AgreeOnReasons(reasons: seq<Reason>, context: Context, context': Context) {
    forall r :: r in reasons ==> Get(context', r.field) == Get(context, r.field)
  }

  lemma {:induction false} WitnessByReasons(node: Node, context: Context, context': Context, test: ConditionTest)
    requires Holds(node, context, test)
    requires AgreeOnReasons(ReasonsOf(node, context, test), context, context')
    ensures Holds(node, context', test)
    ensures forall r :: r in ReasonsOf(node, context, test) ==> r in ReasonsOf(node, context', test)
    decreases node, 1
  {
    match node
    case Condition(f, op, e) =>
      assert Reason(f, op, e, Get(context, f)) in ReasonsOf(node, context, test);
    case Foreign(_) =>
    case Group(_, children) =>
      WitnessBelow(children.items, context, context', test);
  }

  lemma {:induction false} WitnessOfChild(child: Child, context: Context, context': Context, test: ConditionTest)
    requires AgreeOnReasons(ReasonsOfChild(child, context, test), context, context')
    ensures ChildHolds(child, context, test) ==> ChildHolds(child, context', test)
    ensures forall r :: r in ReasonsOfChild(child, context, test) ==> r in ReasonsOfChild(child, context', test)
    decreases child, 2
  {
    if ChildHolds(child, context, test) {
      WitnessByReasons(child.node, context, context', test);
    }
  }

  lemma {:induction false} WitnessBelow(children: seq<Child>, context: Context, context': Context, test: ConditionTest)
    requires AgreeOnReasons(ReasonsOfAll(children, context, test), context, context')
    ensures AllHold(children, context, test) ==> AllHold(children, context', test)
    ensures AnyHolds(children, context, test) ==> AnyHolds(children, context', test)
    ensures forall r :: r in ReasonsOfAll(children, context, test) ==> r in ReasonsOfAll(children, context', test)
    decreases children, 0
  {
    if children != [] {
      WitnessOfChild(children[0], context, context', test);
      WitnessBelow(children[1..], context, context', test);
    }
  }

  /** Reasons quote the context they were found in. */
  lemma {:induction false} ReasonsQuoteContext(node: Node, context: Context, test: ConditionTest, r: Reason)
    requires r in ReasonsOf(node, context, test)
    ensures r.actual == Get(context, r.field)
    decreases node, 1
  {
    if node.Group? && node.children.ListOf? {
      ReasonsBelowQuoteContext(node.children.items, context, test, r);
    }
  }

  lemma {:induction false} ReasonsBelowQuoteContext(children: seq<Child>, context: Context, test: ConditionTest, r: Reason)
    requires r in ReasonsOfAll(children, context, test)
    ensures r.actual == Get(context, r.field)
    decreases children, 0
  {
    if r in ReasonsOfChild(children[0], context, test) {
      ReasonsOfChildQuoteContext(children[0], context, test, r);
    } else {
      ReasonsBelowQuoteContext(children[1..], context, test, r);
    }
  }

  lemma {:induction false} ReasonsOfChildQuoteContext(child: Child, context: Context, test: ConditionTest, r: Reason)
    requires r in ReasonsOfChild(child, context, test)
    ensures r.actual == Get(context, r.field)
    decreases child, 2
  {
    ReasonsQuoteContext(child.node, context, test, r);
  }

  /** The matched map holds exactly the reported fields, each with the value reported for it. */
  lemma {:induction false} MatchedByFields(reasons: seq<Reason>, isoFormat: int -> string, f: string)
    ensures f in MatchedBy(reasons, isoFormat) <==> exists r :: r in reasons && r.field == f
    ensures f in MatchedBy(reasons, isoFormat) ==>
      exists r :: r in reasons && r.field == f && MatchedBy(reasons, isoFormat)[f] == Rendered(r.actual, isoFormat)
  {
    if reasons != [] {
      var front := reasons[..|reasons| - 1];
      var last := reasons[|reasons| - 1];
      MatchedByFields(front, isoFormat, f);
      assert forall r :: r in reasons <==> r in front || r == last;
    }
  }

  /** The matched map reports the context faithfully, up to the rendering of points in time. */
  lemma MatchedQuotesContext(node: Node, context: Context, test: ConditionTest, isoFormat: int -> string)
    ensures var matched := MatchedBy(ReasonsOf(node, context, test), isoFormat);
      forall f :: f in matched ==>
        && matched[f] == Rendered(Get(context, f), isoFormat)
        && (f !in context ==> matched[f] == Nothing)
        && (f in context ==> matched[f] == match context[f]
                                           case DateTime(microseconds) => Text(isoFormat(microseconds))
                                           case other => other)
  {
    var reasons := ReasonsOf(node, context, test);
    var matched := MatchedBy(reasons, isoFormat);
    forall f | f in matched ensures matched[f] == Rendered(Get(context, f), isoFormat) {
      MatchedByFields(reasons, isoFormat, f);
      var r :| r in reasons && r.field == f && matched[f] == Rendered(r.actual, isoFormat);
      ReasonsQuoteContext(node, context, test, r);
    }
  }

  /**
   A match is explained by what it reports: any other context that agrees on the matched fields, and
   on nothing else, makes the rule match too, for at least the same reasons.
   */
  lemma MatchedIsSufficient(node: Node, context: Context, context': Context, test: ConditionTest, isoFormat: int -> string)
    requires Holds(node, context, test)
    requires forall f :: f in MatchedBy(ReasonsOf(node, context, test), isoFormat) ==> Get(context', f) == Get(context, f)
    ensures Holds(node, context', test)
    ensures forall r :: r in ReasonsOf(node, context, test) ==> r in ReasonsOf(node, context', test)
  {
    var reasons := ReasonsOf(node, context, test);
    forall r | r in reasons ensures Get(context', r.field) == Get(context, r.field) {
      MatchedByFields(reasons, isoFormat, r.field);
    }
    WitnessByReasons(node, context, context', test);
  }

  // ---- which conditions are reported, and in which order ----

  /** `path` leads from a node that holds, through nodes that hold, to a condition reported as `r`. */
  ghost predicate LivePath(node: Node, path: seq<nat>, r: Reason, context: Context, test: ConditionTest)
    decreases path
  {
    && Holds(node, context, test)
    && if path == [] then node.Condition? && r == Reason(node.field, node.operator, node.expected, Get(context, node.field))
       else
         && node.Group? && path[0] < |node.children.items|
         && LivePath(node.children.items[path[0]].node, path[1..], r, context, test)
  }

  lemma {:induction false} ReasonsOfAllMembers(children: seq<Child>, r: Reason, context: Context, test: ConditionTest)
    ensures r in ReasonsOfAll(children, context, test)
      <==> exists i :: 0 <= i < |children| && r in ReasonsOfChild(children[i], context, test)
    decreases |children|
  {
    if children != [] {
      var rest := children[1..];
      ReasonsOfAllMembers(rest, r, context, test);
      if r in ReasonsOfAll(rest, context, test) {
        var i :| 0 <= i < |rest| && r in ReasonsOfChild(rest[i], context, test);
        assert rest[i] == children[i + 1];
      }
      if i :| 0 <= i < |children| && r in ReasonsOfChild(children[i], context, test) {
        if i > 0 {
          assert children[i] == rest[i - 1];
        }
      }
    }
  }

  lemma {:induction false} ReasonHasLivePath(node: Node, r: Reason, context: Context, test: ConditionTest)
    returns (path: seq<nat>)
    requires Holds(node, context, test) && r in ReasonsOf(node, context, test)
    ensures LivePath(node, path, r, context, test)
    decreases node, 1
  {
    if node.Condition? {
      path := [];
    } else {
      var items := node.children.items;
      ReasonsOfAllMembers(items, r, context, test);
      var i :| 0 <= i < |items| && r in ReasonsOfChild(items[i], context, test);
      var below := ReasonOfChildHasLivePath(items[i], r, context, test);
      path := [i] + below;
      assert path[1..] == below;
    }
  }

  lemma {:induction false} ReasonOfChildHasLivePath(child: Child, r: Reason, context: Context, test: ConditionTest)
    returns (path: seq<nat>)
    requires r in ReasonsOfChild(child, context, test)
    ensures child.Object? && LivePath(child.node, path, r, context, test)
    decreases child, 2
  {
    path := ReasonHasLivePath(child.node, r, context, test);
  }

  lemma {:induction false} LivePathIsReported(node: Node, path: seq<nat>, r: Reason, context: Context, test: ConditionTest)
    requires LivePath(node, path, r, context, test)
    ensures r in ReasonsOf(node, context, test)
    decreases path
  {
    if path != [] {
      var items := node.children.items;
      LivePathIsReported(items[path[0]].node, path[1..], r, context, test);
      assert r in ReasonsOfChild(items[path[0]], context, test);
      ReasonsOfAllMembers(items, r, context, test);
    }
  }

  /**
   Exactly the conditions reachable through matching nodes are reported; in particular nothing below
   a failing branch of an `or`, not even conditions of it that matched before it failed.
   */
  lemma ReasonsAreLivePaths(node: Node, r: Reason, context: Context, test: ConditionTest)
    requires Holds(node, context, test)
    ensures r in ReasonsOf(node, context, test) <==> exists path: seq<nat> :: LivePath(node, path, r, context, test)
  {
    if r in ReasonsOf(node, context, test) {
      var path: seq<nat> := ReasonHasLivePath(node, r, context, test);
      assert LivePath(node, path, r, context, test);
      assert exists p: seq<nat> :: LivePath(node, p, r, context, test);
    }
    forall path: seq<nat> | LivePath(node, path, r, context, test) ensures r in ReasonsOf(node, context, test) {
      LivePathIsReported(node, path, r, context, test);
    }
    assert (exists p: seq<nat> :: LivePath(node, p, r, context, test)) ==> r in ReasonsOf(node, context, test);
  }

  /** `a` is what is left of `b` after leaving some entries out. */
  ghost predicate IsSubsequence(a: seq<Reason>, b: seq<Reason>) {
    a == [] || (b != [] && ((a[0] == b[0] && IsSubsequence(a[1..], b[1..])) || IsSubsequence(a, b[1..])))
  }

  lemma {:induction false} SubsequenceConcat(a: seq<Reason>, b: seq<Reason>, a': seq<Reason>, b': seq<Reason>)
    requires IsSubsequence(a, b) && IsSubsequence(a', b')
    ensures IsSubsequence(a + a', b + b')
    decreases |b|
  {
    if a == [] {
      assert a + a' == a';
      SubsequencePad(a', b, b');
    } else if a[0] == b[0] && IsSubsequence(a[1..], b[1..]) {
      SubsequenceConcat(a[1..], b[1..], a', b');
      assert (a + a')[1..] == a[1..] + a' && (b + b')[1..] == b[1..] + b';
    } else {
      SubsequenceConcat(a, b[1..], a', b');
      assert (b + b')[1..] == b[1..] + b';
    }
  }

  lemma {:induction false} SubsequencePad(a: seq<Reason>, b: seq<Reason>, b': seq<Reason>)
    requires IsSubsequence(a, b')
    ensures IsSubsequence(a, b + b')
  {
    if b == [] {
      assert b + b' == b';
    } else {
      SubsequencePad(a, b[1..], b');
      assert (b + b')[1..] == b[1..] + b';
    }
  }

  /** The reasons conditions would have if every one of them matched, in collection order. */
  function Quoted(nodes: seq<Node>, context: Context): seq<Reason>
    requires forall n :: n in nodes ==> n.Condition?
  {
    if nodes == [] then []
    else
      [Reason(nodes[0].field, nodes[0].operator, nodes[0].expected, Get(context, nodes[0].field))]
      + Quoted(nodes[1..], context)
  }

  lemma {:induction false} QuotedConcat(a: seq<Node>, b: seq<Node>, context: Context)
    requires forall n :: n in a + b ==> n.Condition?
    ensures (forall n :: n in a ==> n.Condition?) && (forall n :: n in b ==> n.Condition?)
    ensures Quoted(a + b, context) == Quoted(a, context) + Quoted(b, context)
  {
    assert forall n :: n in a ==> n in a + b;
    assert forall n :: n in b ==> n in a + b;
    if a == [] {
      assert a + b == b;
    } else {
      assert (a + b)[1..] == a[1..] + b;
      QuotedConcat(a[1..], b, context);
    }
  }

  /** Reasons come in the order in which the collector meets the conditions, each at most once. */
  lemma {:induction false} ReasonsFollowCollectionOrder(node: Node, context: Context, test: ConditionTest)
    ensures IsSubsequence(ReasonsOf(node, context, test), Quoted(ConditionNodes(node, None), context))
    decreases node, 1
  {
    if node.Condition? {
      assert ConditionNodes(node, None) == [node];
      var tail: seq<Node> := [node][1..];
      assert tail == [] && Quoted(tail, context) == [];
      var quoted := Quoted([node], context);
      assert quoted == ReasonsOf(node, context, test);
      assert IsSubsequence(quoted[1..], quoted[1..]);
    } else if node.Group? && node.children.ListOf? {
      ReasonsBelowFollowCollectionOrder(node.children.items, context, test);
    }
  }

  lemma {:induction false} ReasonsOfChildFollowCollectionOrder(child: Child, context: Context, test: ConditionTest)
    ensures IsSubsequence(ReasonsOfChild(child, context, test), Quoted(ConditionNodesOfChild(child, None), context))
    decreases child, 2
  {
    if child.Object? {
      ReasonsFollowCollectionOrder(child.node, context, test);
    }
  }

  lemma {:induction false} ReasonsBelowFollowCollectionOrder(children: seq<Child>, context: Context, test: ConditionTest)
    ensures IsSubsequence(ReasonsOfAll(children, context, test), Quoted(ConditionNodesOfAll(children, None), context))
    decreases children, 0
  {
    if children != [] {
      ReasonsOfChildFollowCollectionOrder(children[0], context, test);
      ReasonsBelowFollowCollectionOrder(children[1..], context, test);
      QuotedConcat(ConditionNodesOfChild(children[0], None), ConditionNodesOfAll(children[1..], None), context);
      SubsequenceConcat(ReasonsOfChild(children[0], context, test), Quoted(ConditionNodesOfChild(children[0], None), context),
                        ReasonsOfAll(children[1..], context, test), Quoted(ConditionNodesOfAll(children[1..], None), context));
    }
  }

  // ---- when the matched map is a part of the context ----

  ghost predicate IsSubMap(matched: map<string, Value>, context: Context) {
    forall f :: f in matched ==> f in context && context[f] == matched[f]
  }

  /** A field whose value is reported as it stands: it is present and no point in time. */
  predicate ReportedAsIs(context: Context, field: string) {
    field in context && !context[field].DateTime?
  }

  /** Every condition that counts towards the match is on a field reported as it stands. */
  ghost predicate LiveFieldsAsIs(node: Node, context: Context, test: ConditionTest) {
    forall path: seq<nat>, r: Reason :: LivePath(node, path, r, context, test) ==> ReportedAsIs(context, r.field)
  }

  lemma LiveFieldIsMatched(node: Node, path: seq<nat>, r: Reason, context: Context, test: ConditionTest, isoFormat: int -> string)
    requires LivePath(node, path, r, context, test)
    ensures var matched := MatchedBy(ReasonsOf(node, context, test), isoFormat);
      r.field in matched && matched[r.field] == Rendered(Get(context, r.field), isoFormat)
  {
    LivePathIsReported(node, path, r, context, test);
    MatchedByFields(ReasonsOf(node, context, test), isoFormat, r.field);
    MatchedQuotesContext(node, context, test, isoFormat);
  }

  lemma MatchedFieldIsLive(node: Node, field: string, context: Context, test: ConditionTest, isoFormat: int -> string)
    returns (path: seq<nat>, r: Reason)
    requires Holds(node, context, test) && field in MatchedBy(ReasonsOf(node, context, test), isoFormat)
    ensures LivePath(node, path, r, context, test) && r.field == field
  {
    MatchedByFields(ReasonsOf(node, context, test), isoFormat, field);
    r :| r in ReasonsOf(node, context, test) && r.field == field;
    path := ReasonHasLivePath(node, r, context, test);
  }

  /**
   Exactly when the matched map is a sub-map of the context: no condition that counts towards the
   match is on an absent field (as "does not exist" may be) or on a point in time.
   */
  lemma MatchedIsSubMapIff(node: Node, context: Context, test: ConditionTest, isoFormat: int -> string)
    requires Holds(node, context, test)
    ensures IsSubMap(MatchedBy(ReasonsOf(node, context, test), isoFormat), context) <==> LiveFieldsAsIs(node, context, test)
  {
    var matched := MatchedBy(ReasonsOf(node, context, test), isoFormat);
    if IsSubMap(matched, context) {
      forall path: seq<nat>, r: Reason | LivePath(node, path, r, context, test) ensures ReportedAsIs(context, r.field) {
        LiveFieldIsMatched(node, path, r, context, test, isoFormat);
      }
    }
    if LiveFieldsAsIs(node, context, test) {
      forall f | f in matched ensures f in context && context[f] == matched[f] {
        var path, r := MatchedFieldIsLive(node, f, context, test, isoFormat);
        LiveFieldIsMatched(node, path, r, context, test, isoFormat);
      }
    }
  }

  lemma {:induction false} LiveConditionIsCollected(node: Node, path: seq<nat>, r: Reason, context: Context, test: ConditionTest)
    requires LivePath(node, path, r, context, test)
    ensures exists n :: n in ConditionNodes(node, None) && n.field == r.field
    decreases path
  {
    if path == [] {
      assert node in ConditionNodes(node, None);
    } else {
      var items := node.children.items;
      LiveConditionIsCollected(items[path[0]].node, path[1..], r, context, test);
      var n :| n in ConditionNodes(items[path[0]].node, None) && n.field == r.field;
      CollectedBelow(items, path[0], n);
    }
  }

  lemma {:induction false} CollectedBelow(children: seq<Child>, i: nat, n: Node)
    requires i < |children| && n in ConditionNodesOfChild(children[i], None)
    ensures n in ConditionNodesOfAll(children, None)
  {
    if i > 0 {
      CollectedBelow(children[1..], i - 1, n);
    }
  }

  /** What can be checked before an evaluation: when every collected field is reported as it stands, so is the match. */
  lemma CollectedFieldsAsIsSuffice(node: Node, context: Context, test: ConditionTest, isoFormat: int -> string)
    requires Holds(node, context, test)
    requires forall n :: n in ConditionNodes(node, None) ==> ReportedAsIs(context, n.field)
    ensures IsSubMap(MatchedBy(ReasonsOf(node, context, test), isoFormat), context)
  {
    forall path: seq<nat>, r: Reason | LivePath(node, path, r, context, test) ensures ReportedAsIs(context, r.field) {
      LiveConditionIsCollected(node, path, r, context, test);
    }
    MatchedIsSubMapIff(node, context, test, isoFormat);
  }

  /** "Does not exist" on an absent field matches, and reports a field the context does not have. */
  lemma AbsentFieldIsReported(h: Helpers, isoFormat: int -> string)
    ensures var node := Condition("arr.tags", IfNotExists, Nothing);
      && Holds(node, map[], OperatorTest(h))
      && MatchedBy(ReasonsOf(node, map[], OperatorTest(h)), isoFormat) == map["arr.tags" := Nothing]
      && !IsSubMap(MatchedBy(ReasonsOf(node, map[], OperatorTest(h)), isoFormat), map[])
  {
    var node := Condition("arr.tags", IfNotExists, Nothing);
    var reasons := ReasonsOf(node, map[], OperatorTest(h));
    assert !Exists(h, Nothing) && KindOf("arr.tags") == MultiTextField;
    assert reasons == [Reason("arr.tags", IfNotExists, Nothing, Nothing)] && reasons[..0] == [];
    assert "arr.tags" in MatchedBy(reasons, isoFormat);
  }
}
