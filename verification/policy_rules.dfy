/** DNS policy rows and what it means for one to match (crates/ferrum2-dns/src/policy). */
module PolicyRules {
  import opened Prelude
  import opened MatchSets
  import opened PortTree

  datatype Network = Tcp | Udp

  const A_RECORD: nat := 1
  const AAAA_RECORD: nat := 28

  predicate IsAddressQtype(qtype: nat) {
    qtype == A_RECORD || qtype == AAAA_RECORD
  }

  datatype Mode = Query | Response

  datatype Route = Route(server: nat, strategy: nat)

  datatype Action = Evaluate(evaluated: Route) | Respond | Reject | RouteTo(route: Route)

  /** An empty list leaves its field unconstrained; the match sets of `queryFields` are ANDed. */
  datatype Matcher = Matcher(
    queryFields: seq<MatchSet>,
    ruleSets: seq<nat>,
    inbounds: seq<nat>,
    networks: seq<Network>,
    qtypes: seq<nat>,
    ports: seq<Port>,
    portRanges: seq<(Port, Port)>)

  datatype Rule = Rule(matcher: Matcher, mode: Mode, action: Action)

  datatype DnsQuery = DnsQuery(inbound: nat, network: Network, qtype: nat, port: Option<Port>, qname: Option<string>)

  /** What policy reads of an upstream response: an accepted response code, and its addresses. */
  datatype DnsResponse = DnsResponse(accepted: bool, addresses: seq<IpAddr>)

  /** Rule-set ids name match sets. */
  datatype RuleSets = RuleSets(ruleSets: seq<nat>, matchSets: seq<MatchSet>)

  predicate WellFormedRuleSets(s: RuleSets) {
    && (forall i :: 0 <= i < |s.ruleSets| ==> s.ruleSets[i] < |s.matchSets|)
    && (forall m :: m in s.matchSets ==> WellFormed(m))
  }

  predicate SetMatchesName(m: MatchSet, domain: Option<string>) {
    domain.Some? && MatchesName(m, DOMAIN, domain.value)
  }

  predicate RuleSetMatchesName(s: RuleSets, id: nat, domain: Option<string>)
    requires WellFormedRuleSets(s)
  {
    id < |s.ruleSets| && SetMatchesName(s.matchSets[s.ruleSets[id]], domain)
  }

  predicate RuleSetMatchesIp(s: RuleSets, id: nat, address: IpAddr)
    requires WellFormedRuleSets(s)
  {
    id < |s.ruleSets| && MatchesIp(s.matchSets[s.ruleSets[id]], ALL, address)
  }

  predicate InRange(range: (Port, Port), port: Port) {
    range.0 <= port <= range.1
  }

  predicate PortHolds(m: Matcher, query: DnsQuery) {
    m.ports == [] || (query.port.Some? && query.port.value in m.ports)
  }

  predicate PortRangeHolds(m: Matcher, query: DnsQuery) {
    m.portRanges == [] || (query.port.Some? && exists r :: r in m.portRanges && InRange(r, query.port.value))
  }

  /** The query-stage matcher: every configured field holds, and every query field matches the name. */
  predicate MatchesQueryFields(m: Matcher, query: DnsQuery) {
    && (m.inbounds == [] || query.inbound in m.inbounds)
    && (m.networks == [] || query.network in m.networks)
    && (m.qtypes == [] || query.qtype in m.qtypes)
    && PortHolds(m, query)
    && PortRangeHolds(m, query)
    && (forall f :: f in m.queryFields ==> SetMatchesName(f, query.qname))
  }

  predicate SomeRuleSetMatchesName(s: RuleSets, ids: seq<nat>, domain: Option<string>)
    requires WellFormedRuleSets(s)
  {
    exists id :: id in ids && RuleSetMatchesName(s, id, domain)
  }

  predicate ResponseMatches(s: RuleSets, ids: seq<nat>, response: DnsResponse)
    requires WellFormedRuleSets(s)
  {
    exists address, id :: address in response.addresses && id in ids && RuleSetMatchesIp(s, id, address)
  }

  datatype Verdict = Skip | NeedsResponse | Matched

  /** The full matcher on one rule. */
  function RuleVerdict(rule: Rule, query: DnsQuery, s: RuleSets, response: Option<DnsResponse>): Verdict
    requires WellFormedRuleSets(s)
  {
    if !MatchesQueryFields(rule.matcher, query) then Skip
    else match rule.mode
      case Query =>
        if rule.matcher.ruleSets == [] || SomeRuleSetMatchesName(s, rule.matcher.ruleSets, query.qname) then
          Matched
        else Skip
      case Response =>
        if response.None? then NeedsResponse
        else if rule.matcher.ruleSets == [] || ResponseMatches(s, rule.matcher.ruleSets, response.value) then Matched
        else Skip
  }

  // The fields the candidate index knows about

  datatype Field = Inbound | NetworkField | Qtype | PortField | PortRangeField | QueryMatchSet | RuleSetField

  const FIELDS: seq<Field> := [Inbound, NetworkField, Qtype, PortField, PortRangeField, QueryMatchSet, RuleSetField]

  function Index(f: Field): (i: nat)
    ensures i < |FIELDS| && FIELDS[i] == f
  {
    match f
    case Inbound => 0
    case NetworkField => 1
    case Qtype => 2
    case PortField => 3
    case PortRangeField => 4
    case QueryMatchSet => 5
    case RuleSetField => 6
  }

  /** Rule sets constrain the query stage only for rules that match on the query. */
  function QueryRuleSets(rule: Rule): seq<nat> {
    if rule.mode == Response then [] else rule.matcher.ruleSets
  }

  predicate Constrained(rule: Rule, f: Field) {
    match f
    case Inbound => rule.matcher.inbounds != []
    case NetworkField => rule.matcher.networks != []
    case Qtype => rule.matcher.qtypes != []
    case PortField => rule.matcher.ports != []
    case PortRangeField => rule.matcher.portRanges != []
    case QueryMatchSet => rule.matcher.queryFields != []
    case RuleSetField => QueryRuleSets(rule) != []
  }

  /** Some value listed for the field fits the query; for `queryFields` one fitting set is enough. */
  predicate FieldHit(rule: Rule, f: Field, query: DnsQuery, s: RuleSets)
    requires WellFormedRuleSets(s)
  {
    match f
    case Inbound => query.inbound in rule.matcher.inbounds
    case NetworkField => query.network in rule.matcher.networks
    case Qtype => query.qtype in rule.matcher.qtypes
    case PortField => query.port.Some? && query.port.value in rule.matcher.ports
    case PortRangeField => query.port.Some? && exists r :: r in rule.matcher.portRanges && InRange(r, query.port.value)
    case QueryMatchSet => exists m :: m in rule.matcher.queryFields && SetMatchesName(m, query.qname)
    case RuleSetField => SomeRuleSetMatchesName(s, QueryRuleSets(rule), query.qname)
  }

  predicate FieldCandidate(rule: Rule, f: Field, query: DnsQuery, s: RuleSets)
    requires WellFormedRuleSets(s)
  {
    !Constrained(rule, f) || FieldHit(rule, f, query, s)
  }

  /** A rule that is no candidate of some field is skipped by the full matcher, whatever the response. */
  lemma NotCandidateIsSkipped(rule: Rule, f: Field, query: DnsQuery, s: RuleSets, response: Option<DnsResponse>)
    requires WellFormedRuleSets(s) && !FieldCandidate(rule, f, query, s)
    ensures RuleVerdict(rule, query, s, response) == Skip
  {
    if f == QueryMatchSet {
      var m := rule.matcher.queryFields[0];
      assert m in rule.matcher.queryFields;
      assert !SetMatchesName(m, query.qname);
    }
  }

  /** Nothing the query says rules the rule out: each of its fields leaves it possible and all of its sets match. */
  ghost predicate QueryKeeps(rule: Rule, query: DnsQuery, s: RuleSets)
    requires WellFormedRuleSets(s)
  {
    && (forall f: Field :: FieldCandidate(rule, f, query, s))
    && (forall m :: m in rule.matcher.queryFields ==> query.qname.Some? && MatchesName(m, DOMAIN, query.qname.value))
  }

  /** Some rule set of the rule has a network with an address of the response in it. */
  ghost predicate NetworkAnswers(rule: Rule, s: RuleSets, response: DnsResponse)
    requires WellFormedRuleSets(s)
  {
    exists address, id, n ::
      && address in response.addresses && id in rule.matcher.ruleSets && id < |s.ruleSets|
      && n in s.matchSets[s.ruleSets[id]].cidrs && Contains(n, address)
  }

  /** Conversely a rule the query keeps matches, or waits for a response, or is decided by its addresses. */
  lemma VerdictByFields(rule: Rule, query: DnsQuery, s: RuleSets, response: Option<DnsResponse>)
    requires WellFormedRuleSets(s)
    ensures RuleVerdict(rule, query, s, response) ==
      if !QueryKeeps(rule, query, s) then Skip
      else if rule.mode == Query then Matched
      else if response.None? then NeedsResponse
      else if rule.matcher.ruleSets == [] || NetworkAnswers(rule, s, response.value) then Matched
      else Skip
  {
    var m := rule.matcher;
    if QueryKeeps(rule, query, s) {
      assert FieldCandidate(rule, Inbound, query, s) && FieldCandidate(rule, NetworkField, query, s);
      assert FieldCandidate(rule, Qtype, query, s) && FieldCandidate(rule, PortField, query, s);
      assert FieldCandidate(rule, PortRangeField, query, s) && FieldCandidate(rule, RuleSetField, query, s);
      assert MatchesQueryFields(m, query);
    } else if f: Field :| !FieldCandidate(rule, f, query, s) {
      NotCandidateIsSkipped(rule, f, query, s, response);
    } else {
      assert exists set' :: set' in m.queryFields && !SetMatchesName(set', query.qname);
    }
    if response.Some? {
      NetworkAnswersExactly(rule, s, response.value);
    }
  }

  lemma NetworkAnswersExactly(rule: Rule, s: RuleSets, response: DnsResponse)
    requires WellFormedRuleSets(s)
    ensures NetworkAnswers(rule, s, response) <==> ResponseMatches(s, rule.matcher.ruleSets, response)
  {
    if NetworkAnswers(rule, s, response) {
      var address, id, n :|
        && address in response.addresses && id in rule.matcher.ruleSets && id < |s.ruleSets|
        && n in s.matchSets[s.ruleSets[id]].cidrs && Contains(n, address);
      assert RuleSetMatchesIp(s, id, address);
    }
  }
}
