/** The three-valued interpreter, and what a definite or an undetermined answer is worth. */
module RuleState {
  import opened RuleOperators
  import opened RuleEngine

  datatype Tri = True | False | Undetermined

  function StateOf(node: Node, context: Context, test: ConditionTest): Tri
    decreases node, 1
  {
    match node
    case Group(op, children) =>
      if !WellShaped(op, children) then False
      else
        var states := StatesOf(children.items, context, test);
        if op == And then
          if False in states then False else if Undetermined in states then Undetermined else True
        else
          if True in states then True else if Undetermined in states then Undetermined else False
    case Foreign(_) => False
    case Condition(field, operator, expected) =>
      var actual := Get(context, field);
      if actual == Unavailable then Undetermined
      else if test(field, operator, expected, actual) then True else False
  }

  function StateOfChild(child: Child, context: Context, test: ConditionTest): Tri
    decreases child, 2
  {
    if child.Object? then StateOf(child.node, context, test) else False
  }

  function StatesOf(children: seq<Child>, context: Context, test: ConditionTest): (states: seq<Tri>)
    ensures |states| == |children|
    decreases children, 0
  {
    if children == [] then []
    else [StateOfChild(children[0], context, test)] + StatesOf(children[1..], context, test)
  }

  lemma {:induction false} StateAt(children: seq<Child>, i: nat, context: Context, test: ConditionTest)
    requires i < |children|
    ensures StatesOf(children, context, test)[i] == StateOfChild(children[i], context, test)
  {
    if i > 0 {
      StateAt(children[1..], i - 1, context, test);
    }
  }

  lemma SomeChildHasState(items: seq<Child>, context: Context, test: ConditionTest, state: Tri)
    requires forall i :: 0 <= i < |items| ==> items[i].Object?
    ensures state in StatesOf(items, context, test) <==>
      exists i :: 0 <= i < |items| && StateOf(items[i].node, context, test) == state
  {
    var states := StatesOf(items, context, test);
    forall i | 0 <= i < |items| ensures states[i] == StateOf(items[i].node, context, test) {
      StateAt(items, i, context, test);
    }
  }

  /** An `and` group is False exactly when some child is, and True exactly when every child is; `or` is dual. */
  lemma GroupStateIff(items: seq<Child>, context: Context, test: ConditionTest)
    requires |items| > 0 && forall i :: 0 <= i < |items| ==> items[i].Object?
    ensures var state := StateOf(Group(And, ListOf(items)), context, test);
      && (state == False <==> exists i :: 0 <= i < |items| && StateOf(items[i].node, context, test) == False)
      && (state == True <==> forall i :: 0 <= i < |items| ==> StateOf(items[i].node, context, test) == True)
    ensures var state := StateOf(Group(Or, ListOf(items)), context, test);
      && (state == True <==> exists i :: 0 <= i < |items| && StateOf(items[i].node, context, test) == True)
      && (state == False <==> forall i :: 0 <= i < |items| ==> StateOf(items[i].node, context, test) == False)
  {
    SomeChildHasState(items, context, test, True);
    SomeChildHasState(items, context, test, False);
    SomeChildHasState(items, context, test, Undetermined);
  }

  /** A condition is undetermined exactly when its value is unavailable; everything malformed or foreign is False. */
  lemma OtherStates(node: Node, context: Context, test: ConditionTest)
    ensures node.Condition? ==>
      var actual := if node.field in context then context[node.field] else Nothing;
      var state := StateOf(node, context, test);
      && (state == Undetermined <==> actual == Unavailable)
      && (state == True <==> actual != Unavailable && test(node.field, node.operator, node.expected, actual))
    ensures node.Foreign? || (node.Group? && (node.op == InvalidOp || !IsListOfObjects(node.children))) ==>
      StateOf(node, context, test) == False
  {
  }

  // ---- one test answering more often than another ----

  /** Whenever `weaker` accepts a condition of `context`, `stronger` accepts it of `context'`. */
  ghost predicate AcceptsMore(context: Context, weaker: ConditionTest, context': Context, stronger: ConditionTest) {
    forall f, o, e :: weaker(f, o, e, Get(context, f)) ==> stronger(f, o, e, Get(context', f))
  }

  /** Rule trees contain no negation: accepting more conditions can only make more trees hold. */
  lemma {:induction false} HoldsIsMonotone(node: Node, context: Context, weaker: ConditionTest,
                                           context': Context, stronger: ConditionTest)
    requires AcceptsMore(context, weaker, context', stronger)
    requires Holds(node, context, weaker)
    ensures Holds(node, context', stronger)
    decreases node, 1
  {
    if node.Group? {
      MonotoneOnChildren(node.children.items, context, weaker, context', stronger);
    }
  }

  lemma {:induction false} MonotoneOnChild(child: Child, context: Context, weaker: ConditionTest,
                                           context': Context, stronger: ConditionTest)
    requires AcceptsMore(context, weaker, context', stronger)
    ensures ChildHolds(child, context, weaker) ==> ChildHolds(child, context', stronger)
    decreases child, 2
  {
    if ChildHolds(child, context, weaker) {
      HoldsIsMonotone(child.node, context, weaker, context', stronger);
    }
  }

  lemma {:induction false} MonotoneOnChildren(children: seq<Child>, context: Context, weaker: ConditionTest,
                                              context': Context, stronger: ConditionTest)
    requires AcceptsMore(context, weaker, context', stronger)
    ensures AllHold(children, context, weaker) ==> AllHold(children, context', stronger)
    ensures AnyHolds(children, context, weaker) ==> AnyHolds(children, context', stronger)
    decreases children, 0
  {
    if children != [] {
      MonotoneOnChild(children[0], context, weaker, context', stronger);
      MonotoneOnChildren(children[1..], context, weaker, context', stronger);
    }
  }

  // ---- the state against answers guessed for unavailable data ----

  /** A truth value guessed, condition by condition, for the data that is unavailable. */
  type Guess = (string, Operator, Value) -> bool

  function Guessing(test: ConditionTest, guess: Guess): ConditionTest {
    (f, o, e, a) => if a == Unavailable then guess(f, o, e) else test(f, o, e, a)
  }

  function Constantly(b: bool): Guess {
    (f, o, e) => b
  }

  /** The state read off the two extreme guesses. */
  function FromExtremes(pessimistic: bool, optimistic: bool): Tri {
    if pessimistic then True else if optimistic then Undetermined else False
  }

  /** The state is decided by the most pessimistic and the most optimistic guess alone. */
  lemma {:induction false} StateFromExtremes(node: Node, context: Context, test: ConditionTest)
    ensures Holds(node, context, Guessing(test, Constantly(false))) ==> Holds(node, context, Guessing(test, Constantly(true)))
    ensures StateOf(node, context, test)
      == FromExtremes(Holds(node, context, Guessing(test, Constantly(false))),
                      Holds(node, context, Guessing(test, Constantly(true))))
    decreases node, 1
  {
    if node.Group? && node.children.ListOf? {
      StatesFromExtremes(node.children.items, context, test);
    }
  }

  lemma {:induction false} ChildStateFromExtremes(child: Child, context: Context, test: ConditionTest)
    ensures ChildHolds(child, context, Guessing(test, Constantly(false)))
      ==> ChildHolds(child, context, Guessing(test, Constantly(true)))
    ensures StateOfChild(child, context, test)
      == FromExtremes(ChildHolds(child, context, Guessing(test, Constantly(false))),
                      ChildHolds(child, context, Guessing(test, Constantly(true))))
    decreases child, 2
  {
    if child.Object? {
      StateFromExtremes(child.node, context, test);
    }
  }

  lemma {:induction false} StatesFromExtremes(children: seq<Child>, context: Context, test: ConditionTest)
    ensures var states := StatesOf(children, context, test);
      var low := Guessing(test, Constantly(false));
      var high := Guessing(test, Constantly(true));
      && (False !in states <==> AllHold(children, context, high))
      && (False !in states && Undetermined !in states <==> AllHold(children, context, low))
      && (True in states <==> AnyHolds(children, context, low))
      && (True in states || Undetermined in states <==> AnyHolds(children, context, high))
    decreases children, 0
  {
    if children != [] {
      ChildStateFromExtremes(children[0], context, test);
      StatesFromExtremes(children[1..], context, test);
    }
  }

  lemma GuessIsBetweenExtremes(context: Context, test: ConditionTest, guess: Guess)
    ensures AcceptsMore(context, Guessing(test, Constantly(false)), context, Guessing(test, guess))
    ensures AcceptsMore(context, Guessing(test, guess), context, Guessing(test, Constantly(true)))
  {
  }

  /**
   The state is exact: it is undetermined precisely when two guesses about the unavailable data
   disagree on the tree, and a definite state is what every guess yields.
   */
  lemma StateIsExact(node: Node, context: Context, test: ConditionTest)
    ensures StateOf(node, context, test) == Undetermined <==>
      (exists g: Guess :: Holds(node, context, Guessing(test, g))) &&
      (exists g: Guess :: !Holds(node, context, Guessing(test, g)))
    ensures StateOf(node, context, test) == True <==> (forall g: Guess :: Holds(node, context, Guessing(test, g)))
    ensures StateOf(node, context, test) == False <==> (forall g: Guess :: !Holds(node, context, Guessing(test, g)))
  {
    StateFromExtremes(node, context, test);
    forall g: Guess
      ensures Holds(node, context, Guessing(test, Constantly(false))) ==> Holds(node, context, Guessing(test, g))
      ensures Holds(node, context, Guessing(test, g)) ==> Holds(node, context, Guessing(test, Constantly(true)))
    {
      GuessIsBetweenExtremes(context, test, g);
      if Holds(node, context, Guessing(test, Constantly(false))) {
        HoldsIsMonotone(node, context, Guessing(test, Constantly(false)), context, Guessing(test, g));
      }
      if Holds(node, context, Guessing(test, g)) {
        HoldsIsMonotone(node, context, Guessing(test, g), context, Guessing(test, Constantly(true)));
      }
    }
    assert Holds(node, context, Guessing(test, Constantly(true))) || !Holds(node, context, Guessing(test, Constantly(true)));
  }

  /** The two interpreters agree: the collecting one says yes exactly when the state is True. */
  lemma HoldsIffStateIsTrue(node: Node, context: Context, test: ConditionTest)
    requires FailsOnUnavailable(test)
    ensures Holds(node, context, test) <==> StateOf(node, context, test) == True
  {
    StateFromExtremes(node, context, test);
    var pessimistic := Guessing(test, Constantly(false));
    assert AcceptsMore(context, test, context, pessimistic);
    assert AcceptsMore(context, pessimistic, context, test);
    if Holds(node, context, test) {
      HoldsIsMonotone(node, context, test, context, pessimistic);
    }
    if Holds(node, context, pessimistic) {
      HoldsIsMonotone(node, context, pessimistic, context, test);
    }
  }

  // ---- data that becomes available later ----

  /** `later` knows everything `context` knew, and possibly some of what was unavailable. */
  ghost predicate FillsIn(context: Context, later: Context) {
    forall f :: Get(context, f) != Unavailable ==> Get(later, f) == Get(context, f)
  }

  /** The guess that foresees what the later context will say, staying at `fallback` where it is silent. */
  ghost function Foresight(test: ConditionTest, later: Context, fallback: bool): Guess {
    (f, o, e) => if Get(later, f) == Unavailable then fallback else test(f, o, e, Get(later, f))
  }

  /**
   A definite answer is final: whatever values unavailable fields turn out to have, a state that was
   True or False stays what it was, and a rule that matched goes on matching.
   */
  lemma DefiniteStateIsFinal(node: Node, context: Context, later: Context, test: ConditionTest)
    requires FailsOnUnavailable(test) && FillsIn(context, later)
    requires StateOf(node, context, test) != Undetermined
    ensures StateOf(node, later, test) == StateOf(node, context, test)
    ensures Holds(node, later, test) == Holds(node, context, test)
  {
    StateIsExact(node, context, test);
    StateFromExtremes(node, later, test);
    forall b: bool
      ensures Holds(node, later, Guessing(test, Constantly(b))) == (StateOf(node, context, test) == True)
    {
      var foresight := Foresight(test, later, b);
      var now := Guessing(test, foresight);
      var then_ := Guessing(test, Constantly(b));
      assert Holds(node, context, now) == (StateOf(node, context, test) == True);
      assert AcceptsMore(context, now, later, then_);
      assert AcceptsMore(later, then_, context, now);
      if Holds(node, context, now) {
        HoldsIsMonotone(node, context, now, later, then_);
      }
      if Holds(node, later, then_) {
        HoldsIsMonotone(node, later, then_, context, now);
      }
    }
    HoldsIffStateIsTrue(node, context, test);
    HoldsIffStateIsTrue(node, later, test);
  }

  // ---- for the operators themselves ----

  /** The collecting evaluator and the three-valued one agree on every rule, whatever the library routines. */
  lemma EvaluatorsAgree(node: Node, context: Context, h: Helpers)
    ensures Holds(node, context, OperatorTest(h)) <==> StateOf(node, context, OperatorTest(h)) == True
  {
    OperatorTestFailsOnUnavailable(h);
    HoldsIffStateIsTrue(node, context, OperatorTest(h));
  }

  /** No data that becomes available later changes a definite answer of the operators. */
  lemma OperatorStateIsFinal(node: Node, context: Context, later: Context, h: Helpers)
    requires FillsIn(context, later) && StateOf(node, context, OperatorTest(h)) != Undetermined
    ensures StateOf(node, later, OperatorTest(h)) == StateOf(node, context, OperatorTest(h))
    ensures Holds(node, later, OperatorTest(h)) == Holds(node, context, OperatorTest(h))
  {
    OperatorTestFailsOnUnavailable(h);
    DefiniteStateIsFinal(node, context, later, OperatorTest(h));
  }
}
