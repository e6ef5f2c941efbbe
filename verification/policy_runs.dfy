/**
 Whole evaluations of a DNS policy (crates/ferrum2-dns/src/policy/evaluation.rs): any sequence of
 calls, what it answers, and that neither index nor compilation shows in the answers.
 */
module PolicyRuns {
  import opened Prelude
  import MatchSets
  import opened SparseIndex
  import opened PolicyRules
  import opened Admission
  import opened PolicyCandidate
  import opened PolicyEval

  // Whole evaluations

  datatype Call = Next | Respond(response: DnsResponse)

  /** A response is only ever awaited for an evaluating rule of an unfinished evaluation. */
  predicate PendingEvaluates(p: Policy, v: View) {
    v.pending.Some? ==> v.position.Some? && v.pending.value < |p.rules| && p.rules[v.pending.value].action.Evaluate?
  }

  function CallOf(p: Policy, query: DnsQuery, s: RuleSets, v: View, call: Call): (View, StepResult)
    requires WellFormedRuleSets(s) && PendingEvaluates(p, v)
  {
    match call
    case Next => NextStepOf(p, query, s, v)
    case Respond(response) => EvaluateResponseOf(p, query, s, v, response)
  }

  lemma {:induction false} ScanKeepsPending(p: Policy, verdicts: seq<Verdict>, v: View, cursor: nat)
    requires |verdicts| == |p.rules| && v.pending.None?
    ensures PendingEvaluates(p, Scan(p, verdicts, v, cursor).0)
    ensures Scan(p, verdicts, v, cursor).1 != Stepped(None)
    ensures Scan(p, verdicts, v, cursor).1 != Failed(ResponseNotExpected)
    decreases |p.rules| - cursor
  {
    if cursor < |p.rules| && verdicts[cursor] == Skip {
      ScanKeepsPending(p, verdicts, v, cursor + 1);
    }
  }

  /** Every call keeps that, and a response to an awaited one never finds the evaluation finished. */
  lemma CallKeepsPending(p: Policy, query: DnsQuery, s: RuleSets, v: View, call: Call)
    requires WellFormedRuleSets(s) && PendingEvaluates(p, v)
    ensures PendingEvaluates(p, CallOf(p, query, s, v, call).0)
    ensures call.Respond? && v.pending.Some? ==> CallOf(p, query, s, v, call).1 != Failed(ResponseNotExpected)
  {
    if v.position.Some? {
      match call
      case Next =>
        if v.pending.None? {
          ScanKeepsPending(p, Verdicts(p, query, s, None), v.(position := None), v.position.value);
        }
      case Respond(response) =>
        if v.pending.Some? {
          var taken := v.(pending := None, latest := Some(p.rules[v.pending.value].action.evaluated));
          ScanKeepsPending(p, Verdicts(p, query, s, Some(response)), taken.(position := None), v.position.value);
        }
    }
  }

  /** The results of a sequence of calls, by the reference. */
  function Run(p: Policy, query: DnsQuery, s: RuleSets, v: View, calls: seq<Call>): seq<StepResult>
    requires WellFormedRuleSets(s) && PendingEvaluates(p, v)
    decreases |calls|
  {
    if calls == [] then []
    else
      var (after, result) := CallOf(p, query, s, v, calls[0]);
      CallKeepsPending(p, query, s, v, calls[0]);
      [result] + Run(p, query, s, after, calls[1..])
  }

  const START: View := View(Some(0), None, None, false)

  /** An evaluation driven through any calls gives what the reference, which has no index, gives. */
  method Drive(evaluation: DnsPolicyEvaluation, calls: seq<Call>) returns (results: seq<StepResult>)
    requires evaluation.Captured() && evaluation.Valid()
    modifies evaluation
    ensures evaluation.Valid() && PendingEvaluates(evaluation.program.Meaning(), old(evaluation.Observed()))
    ensures results == Run(evaluation.program.Meaning(), evaluation.query, evaluation.snapshot.sets,
                           old(evaluation.Observed()), calls)
  {
    ghost var p, query, s := evaluation.program.Meaning(), evaluation.query, evaluation.snapshot.sets;
    ghost var whole := Run(p, query, s, evaluation.Observed(), calls);
    results := [];
    var k := 0;
    while k < |calls|
      invariant 0 <= k <= |calls| && evaluation.Valid() && PendingEvaluates(p, evaluation.Observed())
      invariant whole == results + Run(p, query, s, evaluation.Observed(), calls[k..])
    {
      CallKeepsPending(p, query, s, evaluation.Observed(), calls[k]);
      assert calls[k..][0] == calls[k] && calls[k..][1..] == calls[k + 1..];
      var result;
      match calls[k] {
        case Next =>
          result := evaluation.NextStep();
        case Respond(response) =>
          result := evaluation.Evaluate(response);
      }
      results := results + [result];
      k := k + 1;
    }
  }

  /** One evaluation of a program from its start. */
  method EvaluateAll(program: Program, query: DnsQuery, snapshot: Snapshot, calls: seq<Call>)
      returns (results: seq<StepResult>)
    requires IndexFits(program) && IsSnapshot(snapshot)
    ensures results == Run(program.Meaning(), query, snapshot.sets, START, calls)
    ensures Answers(program.Meaning(), query, snapshot.sets, calls, results)
  {
    RunExplained(program.Meaning(), query, snapshot.sets, calls);
    var evaluation := new DnsPolicyEvaluation(program, query, snapshot);
    results := Drive(evaluation, calls);
  }

  /** No sequence of calls tells an indexed program from the same rules without their index. */
  method IndexIsInvisible(indexed: Program, query: DnsQuery, snapshot: Snapshot, calls: seq<Call>)
      returns (results: seq<StepResult>, linear: seq<StepResult>)
    requires IndexFits(indexed) && indexed.index.Some? && IsSnapshot(snapshot)
    ensures results == linear && Answers(indexed.Meaning(), query, snapshot.sets, calls, results)
  {
    results := EvaluateAll(indexed, query, snapshot, calls);
    linear := EvaluateAll(indexed.(index := None), query, snapshot, calls);
  }

  /** From the rules and rule sets themselves: unless an index cannot be built, every call gives what trying each rule
      in order gives. */
  method EvaluatePolicy(policy: Policy, sets: RuleSets, limits: Usage, query: DnsQuery, calls: seq<Call>)
      returns (r: Result<seq<StepResult>>)
    requires WellFormedRuleSets(sets)
    requires forall rule, m :: rule in policy.rules && m in rule.matcher.queryFields ==> MatchSets.WellFormed(m)
    ensures r.Ok? <==> CompileErrorOf(policy.rules).None? && SnapshotError(sets, limits).None?
    ensures r.Ok? ==> Answers(policy, query, sets, calls, r.value)
  {
    var program := CompileProgram(policy.rules, policy.finalRoute);
    var snapshot := BuildSnapshot(sets, limits);
    if program.Err? {
      return Err(program.error);
    }
    if snapshot.Err? {
      return Err(snapshot.error);
    }
    var results := EvaluateAll(program.value, query, snapshot.value, calls);
    return Ok(results);
  }

  // What the answers are, from the calls and answers before

  /** The route of the last evaluation asked for. */
  function LastAsked(results: seq<StepResult>): Option<Route> {
    if results == [] then None
    else
      match results[|results| - 1]
      case Stepped(Some(EvaluateResponse(route))) => Some(route)
      case _ => LastAsked(results[..|results| - 1])
  }

  /** An evaluation was asked for and no response has come since. */
  ghost predicate Awaiting(calls: seq<Call>, results: seq<StepResult>)
    requires |calls| == |results|
  {
    exists k :: 0 <= k < |results| && Asks(results[k]) && forall j :: k < j < |calls| ==> calls[j].Next?
  }

  predicate Asks(r: StepResult) {
    r.Stepped? && r.step.Some? && r.step.value.EvaluateResponse?
  }

  /** A response was needed and there was none. */
  predicate Spoiled(results: seq<StepResult>) {
    Failed(EvaluatedResponseRequired) in results
  }

  /** Some step was the last. */
  ghost predicate Ended(results: seq<StepResult>) {
    exists k :: 0 <= k < |results| && Ends(results[k])
  }

  predicate Ends(r: StepResult) {
    r.Stepped? && r.step.Some? && !r.step.value.EvaluateResponse?
  }

  /** What the first rule that is not skipped gives, `asked` being the last evaluation asked for. */
  predicate RuleGives(rule: Rule, verdict: Verdict, asked: Option<Route>, result: StepResult) {
    match verdict
    case Skip => false
    case NeedsResponse => result == Failed(EvaluatedResponseRequired)
    case Matched =>
      match rule.action
      case Evaluate(route) => result == Stepped(Some(EvaluateResponse(route)))
      case Respond =>
        if asked.Some? then result == Stepped(Some(AcceptResponse(asked.value)))
        else result == Failed(EvaluatedResponseRequired)
      case Reject => result == Stepped(Some(Rejected))
      case RouteTo(route) => result == Stepped(Some(RouteImmediately(route)))
  }

  ghost predicate SkippedFrom(
      p: Policy, query: DnsQuery, s: RuleSets, response: Option<DnsResponse>, from: nat, to: nat)
    requires WellFormedRuleSets(s) && to <= |p.rules|
  {
    forall i :: from <= i < to ==> RuleVerdict(p.rules[i], query, s, response) == Skip
  }

  /** The first rule at or after `from` that is not skipped decides, and if there is none the final route. */
  ghost predicate FirstDecides(
      p: Policy, query: DnsQuery, s: RuleSets, response: Option<DnsResponse>, from: nat, asked: Option<Route>,
      result: StepResult, next: nat)
    requires WellFormedRuleSets(s)
  {
    || (SkippedFrom(p, query, s, response, from, |p.rules|) && result == Stepped(Some(Final(p.finalRoute))))
    || exists i: nat ::
         && from <= i < |p.rules| && SkippedFrom(p, query, s, response, from, i)
         && RuleGives(p.rules[i], RuleVerdict(p.rules[i], query, s, response), asked, result) && next == i + 1
  }

  /** One answer, by the calls and answers before it; `from` is where the search for a rule stands. */
  ghost predicate Explained(
      p: Policy, query: DnsQuery, s: RuleSets, calls: seq<Call>, results: seq<StepResult>, from: nat, call: Call,
      result: StepResult, next: nat)
    requires WellFormedRuleSets(s) && |calls| == |results|
  {
    if Spoiled(results) then result == Failed(EvaluatedResponseRequired)
    else if Awaiting(calls, results) then
      match call
      case Next => result == Failed(ResponseRequired) && next == from
      case Respond(response) =>
        && LastAsked(results).Some?
        && if !response.accepted then result == Stepped(Some(AcceptResponse(LastAsked(results).value)))
           else FirstDecides(p, query, s, Some(response), from, LastAsked(results), result, next)
    else
      match call
      case Respond(_) => result == Failed(ResponseNotExpected) && next == from
      case Next =>
        if Ended(results) then result == Stepped(None)
        else FirstDecides(p, query, s, None, from, LastAsked(results), result, next)
  }

  /** Every answer is explained, the search going on from where it stood. */
  ghost predicate Transcript(
      p: Policy, query: DnsQuery, s: RuleSets, calls: seq<Call>, results: seq<StepResult>, places: seq<nat>)
    requires WellFormedRuleSets(s)
  {
    && |calls| == |results| && |places| == |calls| + 1 && places[0] == 0
    && forall k :: 0 <= k < |calls| ==>
         Explained(p, query, s, calls[..k], results[..k], places[k], calls[k], results[k], places[k + 1])
  }

  function Asked(p: Policy, v: View): Option<Route>
    requires PendingEvaluates(p, v)
  {
    if v.pending.Some? then Some(p.rules[v.pending.value].action.evaluated) else v.latest
  }

  /** The state of the reference is what the calls and answers so far say. */
  ghost predicate Remembers(p: Policy, v: View, calls: seq<Call>, results: seq<StepResult>, place: nat) {
    && |calls| == |results| && PendingEvaluates(p, v)
    && (v.failed <==> Spoiled(results))
    && (v.pending.Some? <==> Awaiting(calls, results))
    && (v.position.None? <==> Ended(results) || Spoiled(results))
    && (v.position.Some? ==> v.position.value == place)
    && LastAsked(results) == Asked(p, v)
    && (v.failed ==> v.pending.None?)
  }

  lemma Longer(calls: seq<Call>, results: seq<StepResult>, call: Call, result: StepResult)
    requires |calls| == |results|
    ensures LastAsked(results + [result]) ==
      if Asks(result) then Some(result.step.value.upstream) else LastAsked(results)
    ensures Awaiting(calls + [call], results + [result]) <==> Asks(result) || (call.Next? && Awaiting(calls, results))
    ensures Spoiled(results + [result]) <==> Spoiled(results) || result == Failed(EvaluatedResponseRequired)
    ensures Ended(results + [result]) <==> Ended(results) || Ends(result)
  {
    var more, after := calls + [call], results + [result];
    assert after[..|results|] == results;
    if Asks(result) {
      assert Asks(after[|results|]);
    }
    if Ends(result) {
      assert Ends(after[|results|]);
    }
    if call.Next? && Awaiting(calls, results) {
      var k :| 0 <= k < |results| && Asks(results[k]) && forall j :: k < j < |calls| ==> calls[j].Next?;
      assert Asks(after[k]);
    }
    if k :| 0 <= k < |after| && Asks(after[k]) && forall j :: k < j < |more| ==> more[j].Next? {
      if k < |results| {
        assert more[|calls|] == call && Asks(results[k]);
        forall j | k < j < |calls| ensures calls[j].Next? { assert more[j] == calls[j]; }
      }
    }
    if k :| 0 <= k < |results| && Ends(results[k]) {
      assert Ends(after[k]);
    }
  }

  /** What a scan leaves and answers, whatever it found. */
  ghost predicate Scanned(p: Policy, v: View, after: View, result: StepResult, next: nat) {
    && PendingEvaluates(p, after)
    && (after.position.Some? <==> after.pending.Some?) && (after.position.Some? ==> after.position.value == next)
    && (Asks(result) <==> after.pending.Some?)
    && (after.failed <==> result == Failed(EvaluatedResponseRequired))
    && (Ends(result) <==> after.position.None? && !after.failed)
    && (Asks(result) ==> Asked(p, after) == Some(result.step.value.upstream))
    && after.latest == v.latest && (after.failed ==> after.pending.None?)
  }

  /** A scan is decided by the first rule that is not skipped. */
  lemma {:induction false} ScanExplained(
      p: Policy, query: DnsQuery, s: RuleSets, v: View, response: Option<DnsResponse>, from: nat, cursor: nat)
      returns (next: nat)
    requires WellFormedRuleSets(s) && from <= cursor && v.pending.None? && v.position.None? && !v.failed
    requires forall i :: from <= i < cursor && i < |p.rules| ==> RuleVerdict(p.rules[i], query, s, response) == Skip
    ensures var (after, result) := Scan(p, Verdicts(p, query, s, response), v, cursor);
      FirstDecides(p, query, s, response, from, v.latest, result, next) && Scanned(p, v, after, result, next)
    decreases |p.rules| - cursor
  {
    var verdicts := Verdicts(p, query, s, response);
    if cursor < |p.rules| && verdicts[cursor] == Skip {
      next := ScanExplained(p, query, s, v, response, from, cursor + 1);
    } else if cursor < |p.rules| {
      next := cursor + 1;
      assert SkippedFrom(p, query, s, response, from, cursor);
      assert RuleGives(p.rules[cursor], verdicts[cursor], v.latest, Scan(p, verdicts, v, cursor).1);
    } else {
      next := 0;
      assert SkippedFrom(p, query, s, response, from, |p.rules|);
    }
  }

  lemma ScanRemembers(
      p: Policy, v: View, after: View, calls: seq<Call>, results: seq<StepResult>, call: Call, result: StepResult,
      next: nat)
    requires |calls| == |results| && Scanned(p, v, after, result, next)
    requires !Spoiled(results) && !Ended(results) && (call.Respond? || !Awaiting(calls, results))
    requires v.latest == LastAsked(results)
    ensures Remembers(p, after, calls + [call], results + [result], next)
  {
    Longer(calls, results, call, result);
  }

  lemma CallExplained(
      p: Policy, query: DnsQuery, s: RuleSets, v: View, calls: seq<Call>, results: seq<StepResult>, place: nat,
      call: Call)
      returns (next: nat)
    requires WellFormedRuleSets(s) && Remembers(p, v, calls, results, place)
    ensures var (after, result) := CallOf(p, query, s, v, call);
      && Explained(p, query, s, calls, results, place, call, result, next)
      && Remembers(p, after, calls + [call], results + [result], next)
  {
    var (after, result) := CallOf(p, query, s, v, call);
    next := place;
    match call {
      case Next =>
        if !v.failed && v.pending.None? && v.position.Some? {
          var base := v.(position := None);
          next := ScanExplained(p, query, s, base, None, place, place);
          ScanRemembers(p, base, after, calls, results, call, result, next);
        } else {
          Longer(calls, results, call, result);
        }
      case Respond(response) =>
        if !v.failed && v.pending.Some? && response.accepted {
          var base := v.(position := None, pending := None, latest := Asked(p, v));
          next := ScanExplained(p, query, s, base, Some(response), place, place);
          ScanRemembers(p, base, after, calls, results, call, result, next);
        } else {
          Longer(calls, results, call, result);
        }
    }
  }

  lemma TranscriptGrows(
      p: Policy, query: DnsQuery, s: RuleSets, calls: seq<Call>, results: seq<StepResult>, places: seq<nat>, call: Call,
      result: StepResult, next: nat)
    requires WellFormedRuleSets(s) && Transcript(p, query, s, calls, results, places)
    requires Explained(p, query, s, calls, results, places[|calls|], call, result, next)
    ensures Transcript(p, query, s, calls + [call], results + [result], places + [next])
  {
    var more, after, further := calls + [call], results + [result], places + [next];
    forall k | 0 <= k < |more|
      ensures Explained(p, query, s, more[..k], after[..k], further[k], more[k], after[k], further[k + 1])
    {
      if k < |calls| {
        assert more[..k] == calls[..k] && after[..k] == results[..k];
        assert Explained(p, query, s, calls[..k], results[..k], places[k], calls[k], results[k], places[k + 1]);
      } else {
        assert more[..k] == calls && after[..k] == results;
      }
    }
  }

  lemma {:induction false} RunIsTranscript(
      p: Policy, query: DnsQuery, s: RuleSets, v: View, done: seq<Call>, results: seq<StepResult>, places: seq<nat>,
      calls: seq<Call>)
    requires WellFormedRuleSets(s) && Transcript(p, query, s, done, results, places)
    requires Remembers(p, v, done, results, places[|done|])
    ensures exists all: seq<nat> :: Transcript(p, query, s, done + calls, results + Run(p, query, s, v, calls), all)
    decreases |calls|
  {
    if calls == [] {
      assert done + calls == done && results + Run(p, query, s, v, calls) == results;
    } else {
      var (after, result) := CallOf(p, query, s, v, calls[0]);
      var next := CallExplained(p, query, s, v, done, results, places[|done|], calls[0]);
      TranscriptGrows(p, query, s, done, results, places, calls[0], result, next);
      RunIsTranscript(p, query, s, after, done + [calls[0]], results + [result], places + [next], calls[1..]);
      assert done + [calls[0]] + calls[1..] == done + calls;
      assert results + [result] + Run(p, query, s, after, calls[1..]) == results + Run(p, query, s, v, calls);
    }
  }

  /** What an evaluation answers from its start is a transcript. */
  lemma RunExplained(p: Policy, query: DnsQuery, s: RuleSets, calls: seq<Call>)
    requires WellFormedRuleSets(s)
    ensures Answers(p, query, s, calls, Run(p, query, s, START, calls))
  {
    assert Transcript(p, query, s, [], [], [0]);
    RunIsTranscript(p, query, s, START, [], [], [0], calls);
    assert [] + calls == calls && [] + Run(p, query, s, START, calls) == Run(p, query, s, START, calls);
  }

  ghost predicate Answers(p: Policy, query: DnsQuery, s: RuleSets, calls: seq<Call>, results: seq<StepResult>)
    requires WellFormedRuleSets(s)
  {
    exists places: seq<nat> :: Transcript(p, query, s, calls, results, places)
  }

  lemma DecidedOnce(
      p: Policy, query: DnsQuery, s: RuleSets, response: Option<DnsResponse>, from: nat, asked: Option<Route>,
      a: StepResult, i: nat, b: StepResult, j: nat)
    requires WellFormedRuleSets(s)
    requires FirstDecides(p, query, s, response, from, asked, a, i)
    requires FirstDecides(p, query, s, response, from, asked, b, j)
    ensures a == b && (Asks(a) ==> i == j)
  {
  }

  lemma ExplainedOnce(
      p: Policy, query: DnsQuery, s: RuleSets, calls: seq<Call>, results: seq<StepResult>, from: nat, call: Call,
      a: StepResult, i: nat, b: StepResult, j: nat)
    requires WellFormedRuleSets(s) && |calls| == |results|
    requires Explained(p, query, s, calls, results, from, call, a, i)
    requires Explained(p, query, s, calls, results, from, call, b, j)
    ensures a == b
    ensures Spoiled(results + [a]) || Ended(results + [a]) || i == j
  {
    Longer(calls, results, call, a);
    if !Spoiled(results) {
      if Awaiting(calls, results) && call.Respond? && call.response.accepted {
        DecidedOnce(p, query, s, Some(call.response), from, LastAsked(results), a, i, b, j);
      } else if !Awaiting(calls, results) && call.Next? && !Ended(results) {
        DecidedOnce(p, query, s, None, from, LastAsked(results), a, i, b, j);
      }
    }
  }

  /** Once an evaluation is over, where it stood does not matter. */
  lemma OverExplained(
      p: Policy, query: DnsQuery, s: RuleSets, calls: seq<Call>, results: seq<StepResult>, call: Call,
      from: nat, a: StepResult, i: nat, other: nat, b: StepResult, j: nat)
    requires WellFormedRuleSets(s) && |calls| == |results|
    requires Spoiled(results) || (Ended(results) && !Awaiting(calls, results))
    requires Explained(p, query, s, calls, results, from, call, a, i)
    requires Explained(p, query, s, calls, results, other, call, b, j)
    ensures a == b
  {
  }

  /** An evaluation that has ended awaits nothing. */
  lemma EndedAwaitsNothing(
      p: Policy, query: DnsQuery, s: RuleSets, calls: seq<Call>, results: seq<StepResult>, from: nat, call: Call,
      result: StepResult, next: nat)
    requires WellFormedRuleSets(s) && |calls| == |results|
    requires Explained(p, query, s, calls, results, from, call, result, next)
    requires Ended(results) ==> !Awaiting(calls, results)
    ensures Ended(results + [result]) ==> !Awaiting(calls + [call], results + [result])
  {
    Longer(calls, results, call, result);
  }

  lemma {:induction false} AnswersAgree(
      p: Policy, query: DnsQuery, s: RuleSets, calls: seq<Call>, a: seq<StepResult>, i: seq<nat>, b: seq<StepResult>,
      j: seq<nat>, k: nat)
    requires WellFormedRuleSets(s) && k <= |calls|
    requires Transcript(p, query, s, calls, a, i) && Transcript(p, query, s, calls, b, j)
    ensures a[..k] == b[..k]
    ensures Spoiled(a[..k]) || Ended(a[..k]) || i[k] == j[k]
    ensures Ended(a[..k]) ==> !Awaiting(calls[..k], a[..k])
  {
    if k > 0 {
      var n := k - 1;
      AnswersAgree(p, query, s, calls, a, i, b, j, n);
      assert Explained(p, query, s, calls[..n], a[..n], i[n], calls[n], a[n], i[n + 1]);
      assert Explained(p, query, s, calls[..n], b[..n], j[n], calls[n], b[n], j[n + 1]);
      if i[n] == j[n] {
        ExplainedOnce(p, query, s, calls[..n], a[..n], i[n], calls[n], a[n], i[k], b[n], j[k]);
      } else {
        OverExplained(p, query, s, calls[..n], a[..n], calls[n], i[n], a[n], i[k], j[n], b[n], j[k]);
        Longer(calls[..n], a[..n], calls[n], a[n]);
      }
      EndedAwaitsNothing(p, query, s, calls[..n], a[..n], i[n], calls[n], a[n], i[k]);
      assert calls[..k] == calls[..n] + [calls[n]] && a[..k] == a[..n] + [a[n]] && b[..k] == b[..n] + [b[n]];
    }
  }

  /** Calls have only one sequence of answers. */
  lemma AnswersOnce(
      p: Policy, query: DnsQuery, s: RuleSets, calls: seq<Call>, a: seq<StepResult>, b: seq<StepResult>)
    requires WellFormedRuleSets(s) && Answers(p, query, s, calls, a) && Answers(p, query, s, calls, b)
    ensures a == b
  {
    var i: seq<nat> :| Transcript(p, query, s, calls, a, i);
    var j: seq<nat> :| Transcript(p, query, s, calls, b, j);
    AnswersAgree(p, query, s, calls, a, i, b, j, |calls|);
    assert a[..|calls|] == a && b[..|calls|] == b;
  }
}
