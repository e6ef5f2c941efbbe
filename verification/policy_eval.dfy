/**
 The policy state machine (crates/ferrum2-dns/src/policy/evaluation.rs). Its reference is a
 scan that tries every rule in order; the indexed program has to be indistinguishable from it.
 */
module PolicyEval {
  import opened Prelude
  import MatchSets
  import opened SparseIndex
  import opened PolicyRules
  import opened PolicyCandidate

  const SMALL_LINEAR_RULE_LIMIT: nat := 64

  /** What a program is compiled from, and all that its meaning depends on. */
  datatype Policy = Policy(rules: seq<Rule>, finalRoute: Route)

  datatype Program = Program(rules: seq<Rule>, index: Option<QueryIndex>, finalRoute: Route)
  {
    function Meaning(): Policy { Policy(rules, finalRoute) }
  }

  ghost predicate IndexFits(p: Program) {
    p.index.Some? ==> IsQueryIndex(p.index.value, p.rules)
  }

  ghost predicate IsProgram(p: Program) {
    (p.index.None? <==> |p.rules| <= SMALL_LINEAR_RULE_LIMIT) && IndexFits(p)
  }

  datatype StateError = ResponseRequired | ResponseNotExpected | EvaluatedResponseRequired

  datatype Step =
    | Rejected
    | RouteImmediately(now: Route)
    | EvaluateResponse(upstream: Route)
    | AcceptResponse(accepted: Route)
    | Final(last: Route)

  datatype StepResult = Stepped(step: Option<Step>) | Failed(error: StateError)

  /** What a caller can observe of an evaluation; a finished one has no position any more. */
  datatype View = View(position: Option<nat>, pending: Option<nat>, latest: Option<Route>, failed: bool)

  // The reference: one rule after the other

  function Missing(v: View): (View, StepResult) {
    (v.(position := None, failed := true), Failed(EvaluatedResponseRequired))
  }

  function Finish(v: View, step: Step): (View, StepResult) {
    (v.(position := None), Stepped(Some(step)))
  }

  function Act(rule: Rule, index: nat, v: View): (View, StepResult) {
    match rule.action
    case Evaluate(route) =>
      (v.(position := Some(index + 1), pending := Some(index)), Stepped(Some(EvaluateResponse(route))))
    case Respond => if v.latest.None? then Missing(v) else Finish(v, AcceptResponse(v.latest.value))
    case Reject => Finish(v, Rejected)
    case RouteTo(route) => Finish(v, RouteImmediately(route))
  }

  /** What the full matcher says of each rule. */
  function Verdicts(p: Policy, query: DnsQuery, s: RuleSets, response: Option<DnsResponse>): (r: seq<Verdict>)
    requires WellFormedRuleSets(s)
    ensures |r| == |p.rules|
  {
    seq(|p.rules|, i requires 0 <= i < |p.rules| => RuleVerdict(p.rules[i], query, s, response))
  }

  /** Tries the rules in order from `cursor` and acts on the first that is not skipped. */
  function Scan(p: Policy, verdicts: seq<Verdict>, v: View, cursor: nat): (View, StepResult)
    requires |verdicts| == |p.rules|
    decreases |p.rules| - cursor
  {
    if cursor >= |p.rules| then Finish(v, Final(p.finalRoute))
    else match verdicts[cursor]
      case Skip => Scan(p, verdicts, v, cursor + 1)
      case NeedsResponse => Missing(v)
      case Matched => Act(p.rules[cursor], cursor, v)
  }

  function Advance(p: Policy, query: DnsQuery, s: RuleSets, v: View, response: Option<DnsResponse>): (View, StepResult)
    requires WellFormedRuleSets(s)
  {
    if v.position.None? then (v, Stepped(None))
    else Scan(p, Verdicts(p, query, s, response), v.(position := None), v.position.value)
  }

  function NextStepOf(p: Policy, query: DnsQuery, s: RuleSets, v: View): (View, StepResult)
    requires WellFormedRuleSets(s)
  {
    if v.failed then (v, Failed(EvaluatedResponseRequired))
    else if v.pending.Some? then (v, Failed(ResponseRequired))
    else Advance(p, query, s, v, None)
  }

  function EvaluateResponseOf(
      p: Policy, query: DnsQuery, s: RuleSets, v: View, response: DnsResponse): (View, StepResult)
    requires WellFormedRuleSets(s)
    requires v.pending.Some? ==> v.pending.value < |p.rules| && p.rules[v.pending.value].action.Evaluate?
  {
    if v.failed then (v, Failed(EvaluatedResponseRequired))
    else if v.pending.None? then (v, Failed(ResponseNotExpected))
    else
      var route := p.rules[v.pending.value].action.evaluated;
      var taken := v.(pending := None, latest := Some(route));
      if !response.accepted then Finish(taken, AcceptResponse(route))
      else
        var (after, result) := Advance(p, query, s, taken, Some(response));
        (after, if result == Stepped(None) then Failed(ResponseNotExpected) else result)
  }

  /** Skipped rules do not show in a scan. */
  lemma {:induction false} ScanSkips(p: Policy, verdicts: seq<Verdict>, v: View, cursor: nat, next: nat)
    requires |verdicts| == |p.rules| && cursor <= next <= |p.rules|
    requires forall i :: cursor <= i < next ==> verdicts[i] == Skip
    ensures Scan(p, verdicts, v, cursor) == Scan(p, verdicts, v, next)
    decreases next - cursor
  {
    if cursor < next {
      ScanSkips(p, verdicts, v, cursor + 1, next);
    }
  }

  /** Whatever driver was selected, the rules it leaves out are skipped by the full matcher. */
  lemma DriverLeavesOutSkipped(
      p: Policy, driver: Driver, query: DnsQuery, s: RuleSets, response: Option<DnsResponse>, i: nat)
    requires WellFormedRuleSets(s) && i < |p.rules|
    requires i !in DriverCandidates(p.rules, driver, query, s)
    ensures RuleVerdict(p.rules[i], query, s, response) == Skip
  {
    match driver
    case Sparse(field) =>
      assert !FieldCandidate(p.rules[i], field, query, s);
      NotCandidateIsSkipped(p.rules[i], field, query, s, response);
    case DenseRuleSet =>
  }

  class DnsPolicyEvaluation {
    const program: Program
    const query: DnsQuery
    const snapshot: Snapshot
    var driver: Option<Driver>
    var cursor: nat
    var pendingRule: Option<nat>
    var latestRoute: Option<Route>
    var failed: bool
    var finished: bool

    ghost predicate Valid()
      reads this
    {
      pendingRule.Some? ==>
        !finished && pendingRule.value < |program.rules| && program.rules[pendingRule.value].action.Evaluate?
    }

    /** The captured program and snapshot never change; an index, if there is one, is that of the rules. */
    ghost predicate Captured() {
      IndexFits(program) && IsSnapshot(snapshot)
    }

    ghost function Observed(): View
      reads this
    {
      View(if finished then None else Some(cursor), pendingRule, latestRoute, failed)
    }

    constructor (program: Program, query: DnsQuery, snapshot: Snapshot)
      requires IndexFits(program) && IsSnapshot(snapshot)
      ensures Captured() && Valid() && Observed() == View(Some(0), None, None, false)
      ensures this.program == program && this.query == query && this.snapshot == snapshot
    {
      this.program, this.query, this.snapshot := program, query, snapshot;
      driver, cursor, pendingRule, latestRoute, failed, finished := None, 0, None, None, false, false;
    }

    method NextStep() returns (r: StepResult)
      requires Captured() && Valid()
      modifies this
      ensures Valid()
      ensures (Observed(), r) == NextStepOf(program.Meaning(), query, snapshot.sets, old(Observed()))
    {
      if failed {
        return Failed(EvaluatedResponseRequired);
      }
      if pendingRule.Some? {
        return Failed(ResponseRequired);
      }
      r := Proceed(None);
    }

    method Evaluate(response: DnsResponse) returns (r: StepResult)
      requires Captured() && Valid()
      modifies this
      ensures Valid()
      ensures (Observed(), r) == EvaluateResponseOf(program.Meaning(), query, snapshot.sets, old(Observed()), response)
    {
      if failed {
        return Failed(EvaluatedResponseRequired);
      }
      if pendingRule.None? {
        return Failed(ResponseNotExpected);
      }
      var ruleIndex := pendingRule.value;
      pendingRule := None;
      var route := program.rules[ruleIndex].action.evaluated;
      latestRoute := Some(route);
      if !response.accepted {
        finished := true;
        return Stepped(Some(AcceptResponse(route)));
      }
      r := Proceed(Some(response));
      if r == Stepped(None) {
        r := Failed(ResponseNotExpected);
      }
    }

    /** The candidate loop. */
    method Proceed(response: Option<DnsResponse>) returns (r: StepResult)
      requires Captured() && Valid() && pendingRule.None?
      modifies this
      ensures Valid()
      ensures (Observed(), r) == Advance(program.Meaning(), query, snapshot.sets, old(Observed()), response)
    {
      if finished {
        return Stepped(None);
      }
      ghost var base := Observed().(position := None);
      ghost var first := cursor;
      ghost var verdicts := Verdicts(program.Meaning(), query, snapshot.sets, response);
      var candidate: Option<nat> := NextCandidateRule(response, verdicts);
      ScanFrom(verdicts, base, first, candidate);
      while candidate.Some?
        invariant Valid() && !finished && Observed().(position := None) == base
        invariant Reached(candidate) <= |program.rules|
        invariant candidate.Some? ==> candidate.value < |program.rules|
        invariant Scan(program.Meaning(), verdicts, base, first) ==
          Scan(program.Meaning(), verdicts, base, Reached(candidate))
        decreases |program.rules| - Reached(candidate)
      {
        var outcome, next := Turn(candidate.value, response, verdicts, base);
        if outcome.Some? {
          return outcome.value;
        }
        candidate := next;
      }
      finished := true;
      r := Stepped(Some(Final(program.finalRoute)));
    }

    /** Tries one candidate and, if it is skipped, looks for the next. */
    method Turn(candidate: nat, response: Option<DnsResponse>, ghost verdicts: seq<Verdict>, ghost base: View)
        returns (outcome: Option<StepResult>, next: Option<nat>)
      requires Captured() && Valid() && pendingRule.None? && !finished && candidate < |program.rules|
      requires verdicts == Verdicts(program.Meaning(), query, snapshot.sets, response)
      requires base == Observed().(position := None)
      modifies this
      ensures Valid()
      ensures outcome.Some? ==> (Observed(), outcome.value) == Scan(program.Meaning(), verdicts, base, candidate)
      ensures outcome.None? ==> !finished && Observed().(position := None) == base
      ensures outcome.None? ==> candidate < Reached(next) <= |program.rules|
      ensures outcome.None? && next.Some? ==> next.value < |program.rules|
      ensures outcome.None? ==>
        Scan(program.Meaning(), verdicts, base, candidate) == Scan(program.Meaning(), verdicts, base, Reached(next))
    {
      outcome := TryRule(candidate, response, verdicts);
      next := None;
      if outcome.None? {
        next := NextCandidateRule(response, verdicts);
        ScanOn(verdicts, base, candidate, next);
      }
    }

    lemma ScanOn(verdicts: seq<Verdict>, v: View, candidate: nat, next: Option<nat>)
      requires |verdicts| == |program.rules| && candidate < |program.rules| && verdicts[candidate] == Skip
      requires next.Some? ==> candidate + 1 <= next.value < |program.rules|
      requires forall i :: candidate + 1 <= i < Reached(next) ==> verdicts[i] == Skip
      ensures Scan(program.Meaning(), verdicts, v, candidate) == Scan(program.Meaning(), verdicts, v, Reached(next))
    {
      ScanFrom(verdicts, v, candidate + 1, next);
    }

    ghost function Reached(candidate: Option<nat>): nat {
      if candidate.Some? then candidate.value else |program.rules|
    }

    /** The full matcher on one candidate; nothing comes back when it is skipped. */
    method TryRule(ruleIndex: nat, response: Option<DnsResponse>, ghost verdicts: seq<Verdict>)
        returns (outcome: Option<StepResult>)
      requires WellFormedRuleSets(snapshot.sets)
      requires verdicts == Verdicts(program.Meaning(), query, snapshot.sets, response)
      requires Valid() && pendingRule.None? && !finished && ruleIndex < |program.rules|
      modifies this`cursor, this`pendingRule, this`failed, this`finished
      ensures Valid()
      ensures outcome.None? ==> verdicts[ruleIndex] == Skip && !finished && cursor == ruleIndex + 1
      ensures outcome.None? ==> Observed().(position := None) == old(Observed()).(position := None)
      ensures outcome.Some? ==>
        (Observed(), outcome.value) == Scan(program.Meaning(), verdicts, old(Observed()).(position := None), ruleIndex)
    {
      var rule := program.rules[ruleIndex];
      cursor := ruleIndex + 1;
      var verdict := RuleVerdict(rule, query, snapshot.sets, response);
      match verdict {
        case Skip =>
          return None;
        case NeedsResponse =>
          failed, finished := true, true;
          return Some(Failed(EvaluatedResponseRequired));
        case Matched =>
          var performed := Perform(rule, ruleIndex);
          return Some(performed);
      }
    }

    lemma ScanFrom(verdicts: seq<Verdict>, v: View, from: nat, candidate: Option<nat>)
      requires |verdicts| == |program.rules|
      requires candidate.Some? ==> from <= candidate.value < |program.rules|
      requires forall i :: from <= i < Reached(candidate) ==> verdicts[i] == Skip
      ensures Scan(program.Meaning(), verdicts, v, from) == Scan(program.Meaning(), verdicts, v, Reached(candidate))
    {
      if from <= Reached(candidate) {
        ScanSkips(program.Meaning(), verdicts, v, from, Reached(candidate));
      }
    }

    method Perform(rule: Rule, ruleIndex: nat) returns (r: StepResult)
      requires Valid() && pendingRule.None? && !finished && cursor == ruleIndex + 1
      requires ruleIndex < |program.rules| && rule == program.rules[ruleIndex]
      modifies this`pendingRule, this`failed, this`finished
      ensures Valid()
      ensures (Observed(), r) == Act(rule, ruleIndex, old(Observed()).(position := None))
    {
      match rule.action {
        case Evaluate(route) =>
          pendingRule := Some(ruleIndex);
          return Stepped(Some(EvaluateResponse(route)));
        case Respond =>
          if latestRoute.None? {
            failed, finished := true, true;
            return Failed(EvaluatedResponseRequired);
          }
          r := Stepped(Some(AcceptResponse(latestRoute.value)));
        case Reject =>
          r := Stepped(Some(Rejected));
        case RouteTo(route) =>
          r := Stepped(Some(RouteImmediately(route)));
      }
      finished := true;
    }

    /** A driver is selected on first use and then kept. */
    method EnsureDriver()
      requires Captured() && Valid() && program.index.Some?
      modifies this`driver
      ensures old(driver).Some? ==> driver == old(driver)
    {
      if driver.None? {
        driver := SelectDriver(program.index.value, query, snapshot, program.rules);
      }
    }

    /** The next rule to try; every rule passed over is one the full matcher would skip. */
    method NextCandidateRule(ghost response: Option<DnsResponse>, ghost verdicts: seq<Verdict>)
        returns (next: Option<nat>)
      requires Captured() && Valid() && verdicts == Verdicts(program.Meaning(), query, snapshot.sets, response)
      modifies this`driver
      ensures next.Some? ==> cursor <= next.value < |program.rules|
      ensures forall i :: cursor <= i < Reached(next) ==> verdicts[i] == Skip
    {
      if program.index.None? {
        return if cursor < |program.rules| then Some(cursor) else None;
      }
      EnsureDriver();
      if driver.None? {
        return if cursor < |program.rules| then Some(cursor) else None;
      }
      next := NextCandidate(program.index.value, driver.value, cursor, query, snapshot, program.rules);
      forall i | cursor <= i < Reached(next)
        ensures verdicts[i] == Skip
      {
        DriverLeavesOutSkipped(program.Meaning(), driver.value, query, snapshot.sets, response, i);
      }
      assert next.Some? ==> next.value < |program.rules| by {
        DriverInRange(driver.value);
      }
    }

    lemma DriverInRange(driver: Driver)
      requires IsSnapshot(snapshot)
      ensures forall i :: i in DriverCandidates(program.rules, driver, query, snapshot.sets) ==> i < |program.rules|
    {
    }
  }

  /** Only an index can fail. */
  ghost function CompileErrorOf(rules: seq<Rule>): Option<CompileError> {
    if |rules| <= SMALL_LINEAR_RULE_LIMIT then None else IndexError(rules)
  }

  /** Compiling a rule list: up to 64 rules are scanned, more are indexed. */
  method CompileProgram(rules: seq<Rule>, finalRoute: Route) returns (r: Result<Program>)
    requires forall rule, m :: rule in rules && m in rule.matcher.queryFields ==> MatchSets.WellFormed(m)
    ensures r.Ok? ==> IsProgram(r.value) && r.value.rules == rules && r.value.finalRoute == finalRoute
    ensures CompileErrorOf(rules) == if r.Ok? then None else Some(r.error)
  {
    if |rules| <= SMALL_LINEAR_RULE_LIMIT {
      return Ok(Program(rules, None, finalRoute));
    }
    var index := TryBuild(rules);
    match index {
      case Ok(value) => r := Ok(Program(rules, Some(value), finalRoute));
      case Err(error) => r := Err(error);
    }
  }
}
