/** The protocol by which one optimizer rule is applied to one plan node, and
    the verdicts of the rule-testing harness built on it.

    Rules, patterns, sessions, lookups and captures are opaque here: a rule
    is given by its feature gate, by the stream of matches its pattern yields
    against a node, and by its transformation. The memo that resolves the
    root node and the check of a transformed plan against an expected shape
    are parameters. */
module RuleAssert {
  import opened Wrappers

  type Symbol = string

  /** A plan node. Nodes are compared by identity, as the harness compares
      object references; only the output symbols are visible. */
  class PlanNode {
    const outputSymbols: seq<Symbol>

    constructor (outputSymbols: seq<Symbol>)
      ensures this.outputSymbols == outputSymbols
    {
      this.outputSymbols := outputSymbols;
    }
  }

  /** One match of a pattern: the node captured at the pattern's root, and
      the captures bound by the rest of the pattern. */
  datatype Match<C> = Match(capturedNode: PlanNode, captures: C)

  /** What a rule's transformation returns: no change, or a new plan. */
  datatype RuleResult = Empty | Transformed(plan: PlanNode)

  /** The execution context handed to a rule; the lookup stands for all the
      providers it carries besides the session. */
  datatype Context<S, L> = Context(session: S, lookup: L)

  /** A rule: the gate evaluated on the session, the matches its pattern
      yields against a node through a lookup, and the transformation. */
  datatype Rule<!S, !L, !C> = Rule(
    isEnabled: S -> bool,
    matches: (PlanNode, L) -> seq<Match<C>>,
    apply: (PlanNode, C, Context<S, L>) -> RuleResult)

  /** The exceptions the harness can raise instead of giving a verdict. */
  datatype Exception =
    | MoreThanOneMatch      // the match stream is collected into an optional value
    | NoTransformedPlan     // the transformed plan is asked of an empty result

  /** The outcome of one harness check: it passes, it fails with one of the
      harness's messages, or it raises an exception. */
  datatype Verdict = Pass | Fail(reason: FailureReason) | Raised(exception: Exception)

  datatype FailureReason =
    | FiredUnexpectedly     // "Expected ... to not fire"
    | DidNotFire            // "... did not fire"
    | ReturnedOriginalPlan  // "rule fired but return the original plan"
    | OutputSchemaDiffers   // "output schema of transformed and original plans are not equivalent"
    | PlanMismatch          // the transformed plan does not match the expected pattern

  /** Applies a rule to a node. The whole match stream is collected first, and
      a second match raises; only then is the gate consulted. The rule fires
      only when it is enabled and there is exactly one match, and its
      transformation then receives the node captured at the root and the
      match's captures. */
  function ApplyRule<S, L, C>(rule: Rule<S, L, C>, planNode: PlanNode, context: Context<S, L>): (r: Result<RuleResult, Exception>)
    ensures r.Err? <==> |rule.matches(planNode, context.lookup)| > 1
    ensures r.Err? ==> r.error == MoreThanOneMatch
    ensures r.Ok? && r.value.Transformed? ==>
      rule.isEnabled(context.session) && |rule.matches(planNode, context.lookup)| == 1
    ensures rule.isEnabled(context.session) && |rule.matches(planNode, context.lookup)| == 1 ==>
      var m := rule.matches(planNode, context.lookup)[0];
      r == Ok(rule.apply(m.capturedNode, m.captures, context))
  {
    var matches := rule.matches(planNode, context.lookup);
    if |matches| > 1 then Err(MoreThanOneMatch)
    else
      var result :=
        if !rule.isEnabled(context.session) || |matches| == 0 then Empty
        else rule.apply(matches[0].capturedNode, matches[0].captures, context);
      Ok(result)
  }

  /** Whether the rule changed anything. */
  predicate WasRuleApplied(result: RuleResult)
  {
    !result.Empty?
  }

  /** The transformed plan; asking for it of an empty result raises. */
  function GetTransformedPlan(result: RuleResult): (r: Result<PlanNode, Exception>)
    ensures r.Ok? <==> WasRuleApplied(result)
    ensures r.Ok? ==> result == Transformed(r.value)
    ensures r.Err? ==> r.error == NoTransformedPlan
  {
    match result
    case Transformed(plan) => Ok(plan)
    case Empty => Err(NoTransformedPlan)
  }

  /** The symbols a node outputs, ignoring order and repetition. */
  function OutputSymbolSet(node: PlanNode): set<Symbol>
  {
    set symbol | symbol in node.outputSymbols
  }

  /** The rule under test, its session, and the plan it is tested on.
      `memoRoot` is the plan's root as the memo built from it presents it to
      the rule. */
  datatype RuleTest<!S, !L, !C> = RuleTest(rule: Rule<S, L, C>, session: S, lookup: L, plan: PlanNode, memoRoot: PlanNode)
  {
    function Application(): Result<RuleResult, Exception>
    {
      ApplyRule(rule, memoRoot, Context(session, lookup))
    }

    /** The check that the rule leaves the plan alone. */
    function DoesNotFire(): (v: Verdict)
      ensures v == Fail(FiredUnexpectedly) <==> Application().Ok? && WasRuleApplied(Application().value)
      ensures v == Pass <==> Application() == Ok(Empty)
    {
      match Application()
      case Err(e) => Raised(e)
      case Ok(result) => if WasRuleApplied(result) then Fail(FiredUnexpectedly) else Pass
    }

    /** The check that the rule rewrites the plan into one that outputs the
        same set of symbols and matches `planMatches`. The checks run in
        order: the rule must fire, must return a new instance, and must keep
        the output symbol set; only then is the plan's shape checked. */
    function Matches(planMatches: PlanNode -> bool): (v: Verdict)
      ensures v == Pass <==>
        Application().Ok? && Application().value.Transformed? &&
        Application().value.plan != plan &&
        OutputSymbolSet(Application().value.plan) == OutputSymbolSet(plan) &&
        planMatches(Application().value.plan)
      ensures v == Fail(DidNotFire) <==> Application() == Ok(Empty)
      ensures v == Fail(ReturnedOriginalPlan) <==> Application() == Ok(Transformed(plan))
      ensures v == Fail(OutputSchemaDiffers) ==>
        Application().Ok? && Application().value.Transformed? &&
        OutputSymbolSet(Application().value.plan) != OutputSymbolSet(plan)
    {
      match Application()
      case Err(e) => Raised(e)
      case Ok(result) =>
        if !WasRuleApplied(result) then Fail(DidNotFire)
        else
          match GetTransformedPlan(result)
          case Err(e) => Raised(e)
          case Ok(actual) =>
            if actual == plan then Fail(ReturnedOriginalPlan)
            else if OutputSymbolSet(plan) != OutputSymbolSet(actual) then Fail(OutputSchemaDiffers)
            else if planMatches(actual) then Pass
            else Fail(PlanMismatch)
    }
  }

  // ---------------------------------------------------------------------
  // Properties of the protocol
  // ---------------------------------------------------------------------

  /** A rule disabled for the session does not fire, even when its pattern
      matches (once). */
  lemma DisabledRuleDoesNotFire<S, L, C>(rule: Rule<S, L, C>, planNode: PlanNode, context: Context<S, L>)
    requires !rule.isEnabled(context.session)
    requires |rule.matches(planNode, context.lookup)| <= 1
    ensures ApplyRule(rule, planNode, context) == Ok(Empty)
  {
  }

  /** A pattern that does not match means the rule does not fire. */
  lemma NoMatchDoesNotFire<S, L, C>(rule: Rule<S, L, C>, planNode: PlanNode, context: Context<S, L>)
    requires rule.matches(planNode, context.lookup) == []
    ensures ApplyRule(rule, planNode, context) == Ok(Empty)
  {
  }

  /** A second match raises, whether or not the rule is enabled. */
  lemma SecondMatchRaises<S, L, C>(rule: Rule<S, L, C>, planNode: PlanNode, context: Context<S, L>)
    requires |rule.matches(planNode, context.lookup)| >= 2
    ensures ApplyRule(rule, planNode, context) == Err(MoreThanOneMatch)
  {
  }

  /** The output schema check ignores order and repetition: two nodes whose
      symbol lists hold the same symbols pass it, whatever their order. */
  lemma SchemaCheckIgnoresOrder(a: PlanNode, b: PlanNode)
    requires forall s :: s in a.outputSymbols <==> s in b.outputSymbols
    ensures OutputSymbolSet(a) == OutputSymbolSet(b)
  {
  }

  /** A rule that fires and returns a node with different output symbols
      fails `Matches` with the schema message, before the shape is checked. */
  lemma SchemaViolationFails<S, L, C>(t: RuleTest<S, L, C>, planMatches: PlanNode -> bool, actual: PlanNode)
    requires t.Application() == Ok(Transformed(actual))
    requires actual != t.plan
    requires OutputSymbolSet(actual) != OutputSymbolSet(t.plan)
    ensures t.Matches(planMatches) == Fail(OutputSchemaDiffers)
  {
  }
}
