/** The query candidate index (crates/ferrum2-dns/src/policy_candidate.rs). */
module PolicyCandidate {
  import opened Prelude
  import opened Orders
  import opened SparseIndex
  import opened PortTree
  import opened MatchSets
  import opened MatchIndex
  import opened Admission
  import opened PolicyRules

  /** Candidate indices of the rules that leave a field alone, and whether any rule constrains it. */
  datatype Presence = Presence(unconstrained: seq<nat>, constrained: bool)

  datatype QueryIndex = QueryIndex(
    presence: seq<Presence>,
    inbound: SparseValueIndex<nat>,
    network: SparseValueIndex<Network>,
    qtype: SparseValueIndex<nat>,
    port: SparseValueIndex<nat>,
    portRange: PortRangeCandidateIndex,
    queryMatchSet: MatchCandidateIndex,
    ruleSet: SparseValueIndex<nat>,
    ruleSetConstrained: seq<nat>)

  /** A registry generation: the rule sets with the index over their contents. */
  datatype Snapshot = Snapshot(sets: RuleSets, candidates: MatchCandidateIndex)

  ghost function SnapshotAdded(s: RuleSets): seq<Added>
    requires WellFormedRuleSets(s)
  {
    seq(|s.ruleSets|, i requires 0 <= i < |s.ruleSets| => Added(i, s.matchSets[s.ruleSets[i]], ALL))
  }

  ghost predicate IsSnapshot(s: Snapshot) {
    WellFormedRuleSets(s.sets) && IsMatchIndex(s.candidates, SnapshotAdded(s.sets))
  }

  function NetworkLe(a: Network, b: Network): bool { a.Tcp? || b.Udp? }

  // The keys each field takes from a rule

  function InboundKeys(r: Rule): seq<nat> { r.matcher.inbounds }

  function NetworkKeys(r: Rule): seq<Network> { r.matcher.networks }

  function QtypeKeys(r: Rule): seq<nat> { r.matcher.qtypes }

  function PortKeys(r: Rule): seq<nat> {
    seq(|r.matcher.ports|, i requires 0 <= i < |r.matcher.ports| => r.matcher.ports[i])
  }

  function RuleSetKeys(r: Rule): seq<nat> { QueryRuleSets(r) }

  ghost function Entries<K(!new)>(rules: seq<Rule>, keys: Rule -> seq<K>): seq<(K, nat)> {
    if rules == [] then []
    else Entries(rules[..|rules| - 1], keys) + Tagged(keys(rules[|rules| - 1]), |rules| - 1)
  }

  lemma {:induction false} EntriesMember<K(!new)>(rules: seq<Rule>, keys: Rule -> seq<K>, key: K, c: nat)
    ensures (key, c) in Entries(rules, keys) <==> c < |rules| && key in keys(rules[c])
  {
    if rules != [] {
      var n := |rules| - 1;
      EntriesMember(rules[..n], keys, key, c);
      var tagged := Tagged(keys(rules[n]), n);
      assert (key, c) in tagged <==> c == n && key in keys(rules[n]) by {
        if key in keys(rules[n]) {
          var k :| 0 <= k < |keys(rules[n])| && keys(rules[n])[k] == key;
          assert tagged[k] == (key, n);
        }
      }
    }
  }

  lemma EntriesOneMore<K(!new)>(rules: seq<Rule>, k: nat, keys: Rule -> seq<K>)
    requires k < |rules|
    ensures Entries(rules[..k + 1], keys) == Entries(rules[..k], keys) + Tagged(keys(rules[k]), k)
  {
    assert rules[..k + 1][..k] == rules[..k];
  }

  /** The port ranges of all rules, each under its rule. */
  ghost function RangesOf(rules: seq<Rule>): seq<PortRange> {
    if rules == [] then []
    else RangesOf(rules[..|rules| - 1]) + RuleRanges(rules[|rules| - 1].matcher.portRanges, |rules| - 1)
  }

  ghost function RuleRanges(ranges: seq<(Port, Port)>, c: nat): seq<PortRange> {
    seq(|ranges|, i requires 0 <= i < |ranges| => PortRange(ranges[i].0, ranges[i].1, c))
  }

  lemma {:induction false} RangesMember(rules: seq<Rule>, port: Port, c: nat)
    ensures RangeHolds(RangesOf(rules), port, c) <==>
      c < |rules| && exists r :: r in rules[c].matcher.portRanges && InRange(r, port)
  {
    if rules != [] {
      var n := |rules| - 1;
      RangesMember(rules[..n], port, c);
      var last := RuleRanges(rules[n].matcher.portRanges, n);
      assert RangeHolds(last, port, c)
        <==> c == n && exists r :: r in rules[n].matcher.portRanges && InRange(r, port) by {
        if r :| r in rules[n].matcher.portRanges && InRange(r, port) {
          var k :| 0 <= k < |rules[n].matcher.portRanges| && rules[n].matcher.portRanges[k] == r;
          assert last[k] == PortRange(r.0, r.1, n);
        }
        if RangeHolds(last, port, c) {
          var q :| q in last && q.first <= port <= q.last && q.candidate == c;
          var k :| 0 <= k < |last| && last[k] == q;
          assert rules[n].matcher.portRanges[k] in rules[n].matcher.portRanges;
          assert InRange(rules[n].matcher.portRanges[k], port);
        }
      }
      RangeHoldsBoth(RangesOf(rules[..n]), last, port, c);
    }
  }

  lemma RangeHoldsBoth(a: seq<PortRange>, b: seq<PortRange>, port: Port, c: nat)
    ensures RangeHolds(a + b, port, c) <==> RangeHolds(a, port, c) || RangeHolds(b, port, c)
  {
    if RangeHolds(a, port, c) {
      var r :| r in a && r.first <= port <= r.last && r.candidate == c;
      assert r in a + b;
    }
    if RangeHolds(b, port, c) {
      var r :| r in b && r.first <= port <= r.last && r.candidate == c;
      assert r in a + b;
    }
  }

  /** The query fields of all rules, as a union: enough to find candidates. */
  ghost function AddedOf(rules: seq<Rule>): seq<Added> {
    if rules == [] then []
    else AddedOf(rules[..|rules| - 1]) + RuleAdded(rules[|rules| - 1].matcher.queryFields, |rules| - 1)
  }

  ghost function RuleAdded(sets: seq<MatchSet>, c: nat): seq<Added> {
    seq(|sets|, i requires 0 <= i < |sets| => Added(c, sets[i], DOMAIN))
  }

  ghost predicate AddedHolds(added: seq<Added>, domain: string, c: nat) {
    exists a :: a in added && a.candidate == c && MatchesName(a.matchSet, a.categories, domain)
  }

  lemma {:induction false} AddedMember(rules: seq<Rule>, domain: string, c: nat)
    ensures AddedHolds(AddedOf(rules), domain, c) <==>
      c < |rules| && exists m :: m in rules[c].matcher.queryFields && SetMatchesName(m, Some(domain))
  {
    if rules != [] {
      var n := |rules| - 1;
      AddedMember(rules[..n], domain, c);
      var sets := rules[n].matcher.queryFields;
      var last := RuleAdded(sets, n);
      if m :| m in sets && SetMatchesName(m, Some(domain)) {
        var k :| 0 <= k < |sets| && sets[k] == m;
        assert last[k] == Added(n, m, DOMAIN);
        assert AddedHolds(last, domain, n);
      }
      if AddedHolds(last, domain, c) {
        var a :| a in last && a.candidate == c && MatchesName(a.matchSet, a.categories, domain);
        assert a.matchSet in sets && SetMatchesName(a.matchSet, Some(domain));
      }
      AddedHoldsBoth(AddedOf(rules[..n]), last, domain, c);
    }
  }

  lemma AddedHoldsBoth(a: seq<Added>, b: seq<Added>, domain: string, c: nat)
    ensures AddedHolds(a + b, domain, c) <==> AddedHolds(a, domain, c) || AddedHolds(b, domain, c)
  {
    if AddedHolds(a, domain, c) {
      var x :| x in a && x.candidate == c && MatchesName(x.matchSet, x.categories, domain);
      assert x in a + b;
    }
    if AddedHolds(b, domain, c) {
      var x :| x in b && x.candidate == c && MatchesName(x.matchSet, x.categories, domain);
      assert x in a + b;
    }
  }

  // What the index holds

  ghost predicate IsPresence(p: Presence, rules: seq<Rule>, f: Field) {
    && StrictlySorted(p.unconstrained, NatLe)
    && (forall i: nat :: i in p.unconstrained <==> i < |rules| && !Constrained(rules[i], f))
    && (p.constrained <==> AnyConstrained(rules, f))
  }

  ghost predicate IsConstrainedList(l: seq<nat>, rules: seq<Rule>) {
    && StrictlySorted(l, NatLe)
    && forall i: nat :: i in l <==> i < |rules| && Constrained(rules[i], RuleSetField)
  }

  ghost predicate IsQueryIndex(index: QueryIndex, rules: seq<Rule>) {
    && |rules| <= U32_MAX
    && |index.presence| == |FIELDS|
    && (forall f: Field :: IsPresence(index.presence[Index(f)], rules, f))
    && IsIndexOf(index.inbound, Entries(rules, InboundKeys), NatLe)
    && IsIndexOf(index.network, Entries(rules, NetworkKeys), NetworkLe)
    && IsIndexOf(index.qtype, Entries(rules, QtypeKeys), NatLe)
    && IsIndexOf(index.port, Entries(rules, PortKeys), NatLe)
    && IsPortIndex(index.portRange, RangesOf(rules))
    && IsMatchIndex(index.queryMatchSet, AddedOf(rules))
    && IsIndexOf(index.ruleSet, Entries(rules, RuleSetKeys), NatLe)
    && IsConstrainedList(index.ruleSetConstrained, rules)
  }

  /** The rules a field leaves possible. */
  ghost function FieldCandidates(rules: seq<Rule>, f: Field, query: DnsQuery, s: RuleSets): set<nat>
    requires WellFormedRuleSets(s)
  {
    set i | 0 <= i < |rules| && FieldCandidate(rules[i], f, query, s)
  }

  // Visiting

  /** The postings of a field that are visited for a query. */
  function FieldLists(index: QueryIndex, f: Field, query: DnsQuery, snapshot: Snapshot): seq<seq<nat>> {
    match f
    case Inbound => ListsAt(index.inbound.postings, query.inbound)
    case NetworkField => ListsAt(index.network.postings, query.network)
    case Qtype => ListsAt(index.qtype.postings, query.qtype)
    case PortField => if query.port.None? then [] else ListsAt(index.port.postings, query.port.value as nat)
    case PortRangeField => if query.port.None? then [] else ListsOf(index.portRange.nodes, PortPath(query.port.value))
    case QueryMatchSet => MatchLists(index.queryMatchSet, query.qname, None)
    case RuleSetField => ListsOf(index.ruleSet, Joined(MatchLists(snapshot.candidates, query.qname, None)))
  }

  /** Everything visited for a field: the rules it does not constrain, then those postings. */
  function VisitedLists(index: QueryIndex, f: Field, query: DnsQuery, snapshot: Snapshot): seq<seq<nat>>
    requires |index.presence| == |FIELDS|
  {
    [index.presence[Index(f)].unconstrained] + FieldLists(index, f, query, snapshot)
  }

  /** The lists of one field: the rules it does not constrain, then the postings that fit the query. */
  method VisitField(index: QueryIndex, f: Field, query: DnsQuery, snapshot: Snapshot, ghost rules: seq<Rule>)
      returns (lists: seq<seq<nat>>)
    requires IsQueryIndex(index, rules) && IsSnapshot(snapshot)
    ensures Holds(lists, FieldCandidates(rules, f, query, snapshot.sets))
    ensures |index.presence| == |FIELDS| && lists == VisitedLists(index, f, query, snapshot)
  {
    var unconstrained := index.presence[Index(f)].unconstrained;
    assert IsPresence(index.presence[Index(f)], rules, f);
    var postings;
    ghost var held;
    match f {
      case Inbound =>
        NatOrders();
        postings := VisitCandidateList(index.inbound, query.inbound, NatLe, Entries(rules, InboundKeys));
        held := Posted(Entries(rules, InboundKeys), query.inbound);
        PostedKeys(rules, InboundKeys, query.inbound);
      case NetworkField =>
        postings := VisitCandidateList(index.network, query.network, NetworkLe, Entries(rules, NetworkKeys));
        held := Posted(Entries(rules, NetworkKeys), query.network);
        PostedKeys(rules, NetworkKeys, query.network);
      case Qtype =>
        NatOrders();
        postings := VisitCandidateList(index.qtype, query.qtype, NatLe, Entries(rules, QtypeKeys));
        held := Posted(Entries(rules, QtypeKeys), query.qtype);
        PostedKeys(rules, QtypeKeys, query.qtype);
      case PortField =>
        postings, held := VisitPortField(index, query, snapshot.sets, rules);
      case PortRangeField =>
        postings, held := VisitPortRangeField(index, query, snapshot.sets, rules);
      case QueryMatchSet =>
        postings, held := VisitQueryMatchSets(index, query, snapshot.sets, rules);
      case RuleSetField =>
        postings, held := VisitRuleSets(index, query, snapshot, rules);
    }
    assert forall c: nat :: c in held <==> c < |rules| && FieldHit(rules[c], f, query, snapshot.sets);
    lists := [unconstrained] + postings;
    WithUnconstrained(index.presence[Index(f)], rules, f, query, snapshot.sets, postings, held);
  }

  lemma PostedKeys<K(!new)>(rules: seq<Rule>, keys: Rule -> seq<K>, key: K)
    ensures forall c: nat :: c in Posted(Entries(rules, keys), key) <==> c < |rules| && key in keys(rules[c])
  {
    forall c: nat ensures c in Posted(Entries(rules, keys), key) <==> c < |rules| && key in keys(rules[c]) {
      PostedMember(Entries(rules, keys), key, c);
      EntriesMember(rules, keys, key, c);
    }
  }

  lemma WithUnconstrained(
      p: Presence, rules: seq<Rule>, f: Field, query: DnsQuery, s: RuleSets, postings: seq<seq<nat>>, held: set<nat>)
    requires WellFormedRuleSets(s) && IsPresence(p, rules, f) && Holds(postings, held)
    requires forall c: nat :: c in held <==> c < |rules| && FieldHit(rules[c], f, query, s)
    ensures Holds([p.unconstrained] + postings, FieldCandidates(rules, f, query, s))
  {
    OneList(p.unconstrained);
    var free := set c | c in p.unconstrained;
    HoldsBoth([p.unconstrained], free, postings, held);
    assert free + held == FieldCandidates(rules, f, query, s);
  }

  method VisitPortField(index: QueryIndex, query: DnsQuery, ghost s: RuleSets, ghost rules: seq<Rule>)
      returns (lists: seq<seq<nat>>, ghost held: set<nat>)
    requires IsQueryIndex(index, rules) && WellFormedRuleSets(s)
    ensures Holds(lists, held)
    ensures forall c: nat :: c in held <==> c < |rules| && FieldHit(rules[c], PortField, query, s)
    ensures lists == if query.port.None? then [] else ListsAt(index.port.postings, query.port.value as nat)
  {
    lists, held := [], {};
    if query.port.Some? {
      NatOrders();
      var port: nat := query.port.value;
      lists := VisitCandidateList(index.port, port, NatLe, Entries(rules, PortKeys));
      held := Posted(Entries(rules, PortKeys), port);
      PostedKeys(rules, PortKeys, port);
      forall c: nat | c < |rules| ensures port in PortKeys(rules[c]) <==> query.port.value in rules[c].matcher.ports {
        SamePorts(rules[c], query.port.value);
      }
    }
  }

  lemma SamePorts(r: Rule, port: Port)
    ensures port in PortKeys(r) <==> port in r.matcher.ports
  {
    if port in r.matcher.ports {
      var k :| 0 <= k < |r.matcher.ports| && r.matcher.ports[k] == port;
      assert PortKeys(r)[k] == port;
    }
  }

  method VisitPortRangeField(index: QueryIndex, query: DnsQuery, ghost s: RuleSets, ghost rules: seq<Rule>)
      returns (lists: seq<seq<nat>>, ghost held: set<nat>)
    requires IsQueryIndex(index, rules) && WellFormedRuleSets(s)
    ensures Holds(lists, held)
    ensures forall c: nat :: c in held <==> c < |rules| && FieldHit(rules[c], PortRangeField, query, s)
    ensures lists == if query.port.None? then [] else ListsOf(index.portRange.nodes, PortPath(query.port.value))
  {
    lists, held := [], {};
    if query.port.Some? {
      var port := query.port.value;
      lists := VisitPort(index.portRange, port, RangesOf(rules));
      held := PortCandidates(RangesOf(rules), port);
      forall c: nat ensures c in held <==> c < |rules| && FieldHit(rules[c], PortRangeField, query, s) {
        RangesMember(rules, port, c);
        assert c in held <==> RangeHolds(RangesOf(rules), port, c);
      }
    }
  }

  method VisitQueryMatchSets(index: QueryIndex, query: DnsQuery, ghost s: RuleSets, ghost rules: seq<Rule>)
      returns (lists: seq<seq<nat>>, ghost held: set<nat>)
    requires IsQueryIndex(index, rules) && WellFormedRuleSets(s)
    ensures Holds(lists, held)
    ensures forall c: nat :: c in held <==> c < |rules| && FieldHit(rules[c], QueryMatchSet, query, s)
    ensures lists == MatchLists(index.queryMatchSet, query.qname, None)
  {
    lists := VisitMatchCandidateLists(index.queryMatchSet, query.qname, None, AddedOf(rules));
    held := MatchCandidates(AddedOf(rules), query.qname, None);
    forall c: nat ensures c in held <==> c < |rules| && FieldHit(rules[c], QueryMatchSet, query, s) {
      if query.qname.Some? {
        AddedMember(rules, query.qname.value, c);
        assert c in held <==> AddedHolds(AddedOf(rules), query.qname.value, c);
      }
    }
  }

  /** First the rule sets of the snapshot that match the name, then the rules posted for each. */
  method VisitRuleSets(index: QueryIndex, query: DnsQuery, snapshot: Snapshot, ghost rules: seq<Rule>)
      returns (lists: seq<seq<nat>>, ghost held: set<nat>)
    requires IsQueryIndex(index, rules) && IsSnapshot(snapshot)
    ensures Holds(lists, held)
    ensures forall c: nat :: c in held <==> c < |rules| && FieldHit(rules[c], RuleSetField, query, snapshot.sets)
    ensures lists == ListsOf(index.ruleSet, Joined(MatchLists(snapshot.candidates, query.qname, None)))
  {
    var ids := VisitMatches(snapshot.candidates, query.qname, None, SnapshotAdded(snapshot.sets));
    NatOrders();
    lists, held := VisitKeys(index.ruleSet, ids, NatLe, Entries(rules, RuleSetKeys));
    forall c: nat ensures c in held <==> c < |rules| && FieldHit(rules[c], RuleSetField, query, snapshot.sets) {
      RuleSetHit(rules, ids, query, snapshot.sets, c);
    }
  }

  lemma SnapshotMatch(s: RuleSets, domain: Option<string>, id: nat)
    requires WellFormedRuleSets(s)
    ensures id in MatchCandidates(SnapshotAdded(s), domain, None) <==> RuleSetMatchesName(s, id, domain)
  {
    var added := SnapshotAdded(s);
    if id < |s.ruleSets| {
      assert added[id] == Added(id, s.matchSets[s.ruleSets[id]], ALL);
      assert added[id] in added;
    }
    if id in MatchCandidates(added, domain, None) {
      var a :| a in added && Matches(a.matchSet, a.categories, domain, None) && a.candidate == id;
      var k :| 0 <= k < |added| && added[k] == a;
      assert k == id;
    }
  }

  lemma RuleSetHit(rules: seq<Rule>, ids: seq<nat>, query: DnsQuery, s: RuleSets, c: nat)
    requires WellFormedRuleSets(s)
    requires forall id: nat :: id in ids <==> id in MatchCandidates(SnapshotAdded(s), query.qname, None)
    ensures OnAny(Entries(rules, RuleSetKeys), ids, c) <==> c < |rules| && FieldHit(rules[c], RuleSetField, query, s)
  {
    forall id: nat ensures (id, c) in Entries(rules, RuleSetKeys) <==> c < |rules| && id in QueryRuleSets(rules[c]) {
      EntriesMember(rules, RuleSetKeys, id, c);
    }
    forall id: nat ensures id in ids <==> RuleSetMatchesName(s, id, query.qname) {
      SnapshotMatch(s, query.qname, id);
    }
  }

  // Building

  predicate RangesValid(rules: seq<Rule>) {
    forall r, p :: r in rules && p in r.matcher.portRanges ==> p.0 <= p.1
  }

  /** Each field either records the rule as unconstrained or notes that it is constrained somewhere. */
  function Note(presence: seq<Presence>, rule: Rule, index: nat): (r: seq<Presence>)
    requires |presence| == |FIELDS|
    ensures |r| == |FIELDS|
  {
    seq(|FIELDS|, j requires 0 <= j < |FIELDS| =>
      if Constrained(rule, FIELDS[j]) then presence[j].(constrained := true)
      else presence[j].(unconstrained := presence[j].unconstrained + [index]))
  }

  lemma NoteOneMore(presence: seq<Presence>, rules: seq<Rule>, k: nat, f: Field)
    requires |presence| == |FIELDS| && k < |rules| && IsPresence(presence[Index(f)], rules[..k], f)
    ensures IsPresence(Note(presence, rules[k], k)[Index(f)], rules[..k + 1], f)
  {
    var p := presence[Index(f)];
    var before, after := rules[..k], rules[..k + 1];
    assert after == before + [rules[k]];
    if Constrained(rules[k], f) {
      ConstrainedGrows(before, rules[k], f);
      assert Note(presence, rules[k], k)[Index(f)] == p.(constrained := true);
    } else {
      ConstrainedGrows(before, rules[k], f);
      assert forall i :: 0 <= i < |p.unconstrained| ==> p.unconstrained[i] in p.unconstrained;
      assert Note(presence, rules[k], k)[Index(f)] == p.(unconstrained := p.unconstrained + [k]);
    }
  }

  lemma ConstrainedGrows(before: seq<Rule>, rule: Rule, f: Field)
    ensures AnyConstrained(before + [rule], f) <==> AnyConstrained(before, f) || Constrained(rule, f)
  {
    if AnyConstrained(before, f) {
      var i :| 0 <= i < |before| && Constrained(before[i], f);
      assert (before + [rule])[i] == before[i];
    }
    assert (before + [rule])[|before|] == rule;
  }

  method BuildPresence(rules: seq<Rule>) returns (presence: seq<Presence>, ruleSetConstrained: seq<nat>)
    ensures |presence| == |FIELDS| && forall f: Field :: IsPresence(presence[Index(f)], rules, f)
    ensures IsConstrainedList(ruleSetConstrained, rules)
  {
    presence := seq(|FIELDS|, _ => Presence([], false));
    ruleSetConstrained := [];
    var k := 0;
    while k < |rules|
      invariant 0 <= k <= |rules|
      invariant |presence| == |FIELDS|
      invariant forall f: Field :: IsPresence(presence[Index(f)], rules[..k], f)
      invariant IsConstrainedList(ruleSetConstrained, rules[..k])
    {
      forall f: Field ensures IsPresence(Note(presence, rules[k], k)[Index(f)], rules[..k + 1], f) {
        NoteOneMore(presence, rules, k, f);
      }
      assert forall i :: 0 <= i < |ruleSetConstrained| ==> ruleSetConstrained[i] in ruleSetConstrained;
      presence := Note(presence, rules[k], k);
      if Constrained(rules[k], RuleSetField) {
        ruleSetConstrained := ruleSetConstrained + [k];
      }
      k := k + 1;
    }
    assert rules[..k] == rules;
  }

  /** The postings of one scalar field. */
  method BuildField<K(==, !new)>(rules: seq<Rule>, keys: Rule -> seq<K>, le: (K, K) -> bool)
      returns (index: SparseValueIndex<K>)
    requires |rules| <= U32_MAX && TotalOrder(le)
    ensures IsIndexOf(index, Entries(rules, keys), le)
  {
    var builder: SparseValueIndexBuilder<K> := SparseValueIndexBuilder([]);
    var k := 0;
    while k < |rules|
      invariant 0 <= k <= |rules|
      invariant builder.entries == Entries(rules[..k], keys)
    {
      var added := AddAll(builder, keys(rules[k]), k);
      EntriesOneMore(rules, k, keys);
      builder := added.value;
      k := k + 1;
    }
    assert rules[..k] == rules;
    index := Build(builder, le);
  }

  lemma RuleRangesGrow(base: seq<PortRange>, ranges: seq<(Port, Port)>, k: nat, c: nat)
    requires k < |ranges|
    ensures base + RuleRanges(ranges[..k + 1], c)
         == (base + RuleRanges(ranges[..k], c)) + [PortRange(ranges[k].0, ranges[k].1, c)]
  {
  }

  lemma RuleAddedGrow(base: seq<Added>, sets: seq<MatchSet>, k: nat, c: nat)
    requires k < |sets|
    ensures base + RuleAdded(sets[..k + 1], c) == (base + RuleAdded(sets[..k], c)) + [Added(c, sets[k], DOMAIN)]
  {
  }

  method AddRanges(builder: PortRangeCandidateIndexBuilder, ranges: seq<(Port, Port)>, candidate: nat)
      returns (r: Result<()>)
    requires builder.Valid() && candidate <= U32_MAX
    modifies builder
    ensures builder.Valid()
    ensures r.Ok? <==> forall p :: p in ranges ==> p.0 <= p.1
    ensures r.Err? ==> r.error == EmptyField
    ensures r.Ok? ==> builder.ranges == old(builder.ranges) + RuleRanges(ranges, candidate)
  {
    var k := 0;
    while k < |ranges|
      invariant 0 <= k <= |ranges| && builder.Valid()
      invariant forall i :: 0 <= i < k ==> ranges[i].0 <= ranges[i].1
      invariant builder.ranges == old(builder.ranges) + RuleRanges(ranges[..k], candidate)
    {
      r := builder.TryAdd(ranges[k].0, ranges[k].1, candidate);
      if r.Err? {
        assert ranges[k] in ranges;
        return;
      }
      RuleRangesGrow(old(builder.ranges), ranges, k, candidate);
      k := k + 1;
    }
    assert ranges[..k] == ranges;
    r := Ok(());
  }

  lemma RangesGrow(rules: seq<Rule>, k: nat)
    requires k < |rules|
    ensures RangesOf(rules[..k + 1]) == RangesOf(rules[..k]) + RuleRanges(rules[k].matcher.portRanges, k)
    ensures RangesValid(rules[..k + 1]) <==>
      RangesValid(rules[..k]) && forall p :: p in rules[k].matcher.portRanges ==> p.0 <= p.1
    ensures RangesValid(rules) ==> RangesValid(rules[..k + 1])
  {
    assert rules[..k + 1][..k] == rules[..k];
    assert rules[..k + 1] == rules[..k] + [rules[k]];
  }

  method BuildPortRanges(rules: seq<Rule>) returns (r: Result<PortRangeCandidateIndex>)
    requires |rules| <= U32_MAX
    ensures r.Ok? <==> RangesValid(rules)
    ensures r.Err? ==> r.error == EmptyField
    ensures r.Ok? ==> IsPortIndex(r.value, RangesOf(rules))
  {
    var builder := new PortRangeCandidateIndexBuilder();
    var k := 0;
    while k < |rules|
      invariant 0 <= k <= |rules| && builder.Valid() && fresh(builder)
      invariant RangesValid(rules[..k])
      invariant builder.ranges == RangesOf(rules[..k])
    {
      RangesGrow(rules, k);
      var added := AddRanges(builder, rules[k].matcher.portRanges, k);
      if added.Err? {
        return Err(added.error);
      }
      k := k + 1;
    }
    assert rules[..k] == rules;
    var index := builder.Finish();
    r := Ok(index);
  }

  method AddSets(builder: MatchCandidateIndexBuilder, sets: seq<MatchSet>, candidate: nat)
    requires builder.Valid() && candidate <= U32_MAX && forall m :: m in sets ==> WellFormed(m)
    modifies builder
    ensures builder.Valid() && builder.added == old(builder.added) + RuleAdded(sets, candidate)
  {
    var k := 0;
    while k < |sets|
      invariant 0 <= k <= |sets| && builder.Valid()
      invariant builder.added == old(builder.added) + RuleAdded(sets[..k], candidate)
    {
      var added := builder.TryAddMatchSet(candidate, sets[k], DOMAIN);
      RuleAddedGrow(old(builder.added), sets, k, candidate);
      k := k + 1;
    }
    assert sets[..k] == sets;
  }

  method BuildMatchSets(rules: seq<Rule>) returns (r: Result<MatchCandidateIndex>)
    requires |rules| <= U32_MAX
    requires forall rule, m :: rule in rules && m in rule.matcher.queryFields ==> WellFormed(m)
    ensures r.Ok? <==> KeywordsAdmitted(AddedOf(rules))
    ensures r.Ok? ==> IsMatchIndex(r.value, AddedOf(rules))
    ensures r.Err? ==> r.error == ResourceLimit
  {
    var builder := new MatchCandidateIndexBuilder();
    var k := 0;
    while k < |rules|
      invariant 0 <= k <= |rules| && builder.Valid() && fresh(builder)
      invariant builder.added == AddedOf(rules[..k])
    {
      assert rules[k] in rules;
      assert rules[..k + 1][..k] == rules[..k];
      AddSets(builder, rules[k].matcher.queryFields, k);
      k := k + 1;
    }
    assert rules[..k] == rules;
    r := builder.Finish();
  }

  /** Why a rule list has no index: too many rules, an empty port range, or keywords beyond their limits. */
  ghost function IndexError(rules: seq<Rule>): Option<CompileError> {
    if |rules| > U32_MAX then Some(IndexOverflow)
    else if !RangesValid(rules) then Some(EmptyField)
    else if !KeywordsAdmitted(AddedOf(rules)) then Some(ResourceLimit)
    else None
  }

  /** The index of a rule list, or why there is none. */
  method TryBuild(rules: seq<Rule>) returns (r: Result<QueryIndex>)
    requires forall rule, m :: rule in rules && m in rule.matcher.queryFields ==> WellFormed(m)
    ensures r.Ok? ==> IsQueryIndex(r.value, rules)
    ensures IndexError(rules) == if r.Ok? then None else Some(r.error)
  {
    if |rules| > U32_MAX {
      return Err(IndexOverflow);
    }
    NatOrders();
    var presence, ruleSetConstrained := BuildPresence(rules);
    var portRange := BuildPortRanges(rules);
    if portRange.Err? { return Err(portRange.error); }
    var queryMatchSet := BuildMatchSets(rules);
    if queryMatchSet.Err? { return Err(queryMatchSet.error); }
    var inbound := BuildField(rules, InboundKeys, NatLe);
    var network := BuildField(rules, NetworkKeys, NetworkLe);
    var qtype := BuildField(rules, QtypeKeys, NatLe);
    var port := BuildField(rules, PortKeys, NatLe);
    var ruleSet := BuildField(rules, RuleSetKeys, NatLe);
    r := Ok(QueryIndex(presence, inbound, network, qtype, port, portRange.value, queryMatchSet.value, ruleSet,
                       ruleSetConstrained));
  }

  lemma SnapshotAddedStep(sets: RuleSets, k: nat)
    requires WellFormedRuleSets(sets) && k < |sets.ruleSets|
    ensures SnapshotAdded(sets)[k] == Added(k, sets.matchSets[sets.ruleSets[k]], ALL)
    ensures SnapshotAdded(sets)[..k + 1] == SnapshotAdded(sets)[..k] + [SnapshotAdded(sets)[k]]
    ensures k > U32_MAX && TakesKeys(SnapshotAdded(sets)[k]) ==> Overflows(SnapshotAdded(sets))
    ensures !(k > U32_MAX && TakesKeys(SnapshotAdded(sets)[k])) && !Overflows(SnapshotAdded(sets)[..k]) ==>
      !Overflows(SnapshotAdded(sets)[..k + 1])
  {
    assert SnapshotAdded(sets)[k] in SnapshotAdded(sets);
  }

  ghost predicate Overflows(added: seq<Added>) {
    exists a :: a in added && a.candidate > U32_MAX && TakesKeys(a)
  }

  /** The match set behind each rule set; a match set shared by several counts for each. */
  function Referenced(sets: RuleSets): seq<MatchSet>
    requires WellFormedRuleSets(sets)
  {
    seq(|sets.ruleSets|, i requires 0 <= i < |sets.ruleSets| => sets.matchSets[sets.ruleSets[i]])
  }

  /** Why rule sets have no snapshot: the match sets, alone or once for each rule set, exceed the limits, a non-empty
      rule set is numbered too high, or keywords exceed their limits. */
  ghost function SnapshotError(sets: RuleSets, limits: Usage): Option<CompileError>
    requires WellFormedRuleSets(sets)
  {
    if !TotalUsage(sets.matchSets).Within(limits) then Some(ResourceLimit)
    else if !TotalUsage(Referenced(sets)).Within(limits) then Some(ResourceLimit)
    else if Overflows(SnapshotAdded(sets)) then Some(IndexOverflow)
    else if !KeywordsAdmitted(SnapshotAdded(sets)) then Some(ResourceLimit)
    else None
  }

  method IndexRuleSets(sets: RuleSets) returns (r: Result<MatchCandidateIndex>)
    requires WellFormedRuleSets(sets)
    ensures r.Ok? ==> IsMatchIndex(r.value, SnapshotAdded(sets))
    ensures (if r.Ok? then None else Some(r.error))
      == if Overflows(SnapshotAdded(sets)) then Some(IndexOverflow)
         else if !KeywordsAdmitted(SnapshotAdded(sets)) then Some(ResourceLimit)
         else None
  {
    var builder := new MatchCandidateIndexBuilder();
    var k := 0;
    while k < |sets.ruleSets|
      invariant 0 <= k <= |sets.ruleSets| && builder.Valid() && fresh(builder)
      invariant builder.added == SnapshotAdded(sets)[..k]
      invariant !Overflows(SnapshotAdded(sets)[..k])
    {
      SnapshotAddedStep(sets, k);
      var matchSet := sets.matchSets[sets.ruleSets[k]];
      var added := builder.TryAddMatchSet(k, matchSet, ALL);
      if added.Err? {
        return Err(added.error);
      }
      k := k + 1;
    }
    assert SnapshotAdded(sets)[..k] == SnapshotAdded(sets);
    r := builder.Finish();
  }

  /** A registry snapshot: every rule set indexed under its id (crates/ferrum2-rule/src/registry.rs). */
  method BuildSnapshot(sets: RuleSets, limits: Usage) returns (r: Result<Snapshot>)
    requires WellFormedRuleSets(sets)
    ensures r.Ok? ==> r.value.sets == sets && IsSnapshot(r.value)
    ensures SnapshotError(sets, limits) == if r.Ok? then None else Some(r.error)
  {
    var retained := AdmitAll(sets.matchSets, limits);
    if !retained {
      return Err(ResourceLimit);
    }
    var indexed := AdmitAll(Referenced(sets), limits);
    if !indexed {
      return Err(ResourceLimit);
    }
    var index := IndexRuleSets(sets);
    match index {
      case Ok(candidates) => r := Ok(Snapshot(sets, candidates));
      case Err(error) => r := Err(error);
    }
  }

  // Choosing a driver and walking it

  datatype Driver = Sparse(field: Field) | DenseRuleSet

  ghost predicate AnyConstrained(rules: seq<Rule>, f: Field) {
    exists i :: 0 <= i < |rules| && Constrained(rules[i], f)
  }

  /** The rules a driver enumerates. */
  ghost function DriverCandidates(rules: seq<Rule>, d: Driver, query: DnsQuery, s: RuleSets): set<nat>
    requires WellFormedRuleSets(s)
  {
    match d
    case Sparse(f) => FieldCandidates(rules, f, query, s)
    case DenseRuleSet => AllRows(rules)
  }

  predicate IsRow(rules: seq<Rule>, i: nat) {
    i < |rules|
  }

  ghost function AllRows(rules: seq<Rule>): set<nat> {
    set i: nat | i < |rules| && IsRow(rules, i)
  }

  function TotalLength(lists: seq<seq<nat>>): nat {
    if lists == [] then 0 else TotalLength(lists[..|lists| - 1]) + |lists[|lists| - 1]|
  }

  lemma FieldAt(k: nat)
    requires k < |FIELDS|
    ensures Index(FIELDS[k]) == k
  {
  }

  /** The dense walk over all rules takes the place of a rule-set walk at least half as long. */
  function PriceOf(index: QueryIndex, field: Field, query: DnsQuery, walked: nat): (Driver, nat)
    requires |index.presence| == |FIELDS|
  {
    var dense := |index.presence[Index(field)].unconstrained| + |index.ruleSetConstrained|;
    if field == RuleSetField && IsAddressQtype(query.qtype) && walked >= (dense + 1) / 2 then (DenseRuleSet, dense)
    else (Sparse(field), walked)
  }

  /** A field's driver and how many list entries it walks. */
  function Offer(index: QueryIndex, field: Field, query: DnsQuery, snapshot: Snapshot): (Driver, nat)
    requires |index.presence| == |FIELDS|
  {
    PriceOf(index, field, query, TotalLength(VisitedLists(index, field, query, snapshot)))
  }

  /** Sorted lists that share out the numbers below n have n entries together. */
  lemma {:induction false} SharedOut(a: seq<nat>, b: seq<nat>, n: nat)
    requires StrictlySorted(a, NatLe) && StrictlySorted(b, NatLe)
    requires forall i: nat :: (i in a || i in b <==> i < n) && !(i in a && i in b)
    ensures |a| + |b| == n
  {
    if a == [] && b == [] {
      assert n > 0 ==> 0 in a || 0 in b;
    } else {
      assert if a != [] then a[0] in a else b[0] in b;
      if n - 1 in a {
        LastIsGreatest(a, n - 1);
        SharedOut(a[..|a| - 1], b, n - 1);
      } else {
        LastIsGreatest(b, n - 1);
        SharedOut(a, b[..|b| - 1], n - 1);
      }
    }
  }

  lemma LastIsGreatest(a: seq<nat>, n: nat)
    requires StrictlySorted(a, NatLe) && n in a && forall i :: i in a ==> i <= n
    ensures a != [] && StrictlySorted(a[..|a| - 1], NatLe)
    ensures forall i: nat :: i in a[..|a| - 1] <==> i in a && i != n
  {
    var k :| 0 <= k < |a| && a[k] == n;
    assert a[|a| - 1] in a;
    assert k == |a| - 1;
    forall i: nat | i in a && i != n ensures i in a[..|a| - 1] {
      var j :| 0 <= j < |a| && a[j] == i;
      assert a[..|a| - 1][j] == i;
    }
    forall j | 0 <= j < |a| - 1 ensures a[j] != n && a[j] in a {}
  }

  /** The dense walk visits every rule once. It is offered for rule sets when an address is asked for and the rule-set
      walk is at least half as long; any other field offers its own walk. */
  lemma OfferMeaning(index: QueryIndex, rules: seq<Rule>, field: Field, query: DnsQuery, snapshot: Snapshot)
    requires IsQueryIndex(index, rules)
    ensures |index.presence| == |FIELDS|
    ensures var walked := TotalLength(VisitedLists(index, field, query, snapshot));
      Offer(index, field, query, snapshot) ==
        if field == RuleSetField && (query.qtype == 1 || query.qtype == 28) && 2 * walked >= |rules|
        then (DenseRuleSet, |rules|)
        else (Sparse(field), walked)
  {
    assert IsPresence(index.presence[Index(RuleSetField)], rules, RuleSetField);
    SharedOut(index.presence[Index(RuleSetField)].unconstrained, index.ruleSetConstrained, |rules|);
  }

  method PriceField(index: QueryIndex, field: Field, query: DnsQuery, snapshot: Snapshot, ghost rules: seq<Rule>)
      returns (driver: Driver, cost: nat)
    requires IsQueryIndex(index, rules) && IsSnapshot(snapshot)
    ensures |index.presence| == |FIELDS| && (driver, cost) == Offer(index, field, query, snapshot)
  {
    var lists := VisitField(index, field, query, snapshot, rules);
    driver, cost := PriceLists(index, field, query, lists);
  }

  method PriceLists(index: QueryIndex, field: Field, query: DnsQuery, lists: seq<seq<nat>>)
      returns (driver: Driver, cost: nat)
    requires |index.presence| == |FIELDS|
    ensures (driver, cost) == PriceOf(index, field, query, TotalLength(lists))
  {
    driver, cost := Sparse(field), TotalLength(lists);
    if field == RuleSetField && IsAddressQtype(query.qtype) {
      var denseCount := |index.presence[Index(field)].unconstrained| + |index.ruleSetConstrained|;
      if cost >= (denseCount + 1) / 2 {
        driver, cost := DenseRuleSet, denseCount;
      }
    }
  }

  /** A field whose offer none of the first k constrained fields undercuts, the first of equals. */
  ghost predicate Cheapest(
      index: QueryIndex, rules: seq<Rule>, query: DnsQuery, snapshot: Snapshot, chosen: Field, k: nat)
    requires |index.presence| == |FIELDS|
  {
    var cost := Offer(index, chosen, query, snapshot).1;
    && Index(chosen) < k && AnyConstrained(rules, chosen)
    && forall f: Field :: Index(f) < k && AnyConstrained(rules, f) ==>
         var other := Offer(index, f, query, snapshot).1;
         cost <= other && (Index(f) < Index(chosen) ==> cost < other)
  }

  lemma ConstrainedFlag(index: QueryIndex, rules: seq<Rule>, k: nat)
    requires IsQueryIndex(index, rules) && k < |FIELDS|
    ensures |index.presence| == |FIELDS| && (index.presence[k].constrained <==> AnyConstrained(rules, FIELDS[k]))
  {
    FieldAt(k);
    assert IsPresence(index.presence[Index(FIELDS[k])], rules, FIELDS[k]);
  }

  lemma CheapestOneMore(
      index: QueryIndex, rules: seq<Rule>, query: DnsQuery, snapshot: Snapshot, best: Option<Field>, k: nat)
    requires |index.presence| == |FIELDS| && k < |FIELDS|
    requires best.None? ==> forall f: Field :: Index(f) < k ==> !AnyConstrained(rules, f)
    requires best.Some? ==> Cheapest(index, rules, query, snapshot, best.value, k)
    ensures !AnyConstrained(rules, FIELDS[k]) && best.None? ==>
      forall f: Field :: Index(f) < k + 1 ==> !AnyConstrained(rules, f)
    ensures !AnyConstrained(rules, FIELDS[k]) && best.Some? ==>
      Cheapest(index, rules, query, snapshot, best.value, k + 1)
    ensures AnyConstrained(rules, FIELDS[k]) ==>
      var cost := Offer(index, FIELDS[k], query, snapshot).1;
      if best.None? || cost < Offer(index, best.value, query, snapshot).1
      then Cheapest(index, rules, query, snapshot, FIELDS[k], k + 1)
      else Cheapest(index, rules, query, snapshot, best.value, k + 1)
  {
    FieldAt(k);
    forall f: Field | Index(f) < k + 1 ensures Index(f) < k || f == FIELDS[k] {}
  }

  /** The driver of the constrained field that walks fewest entries, the first of equals; none exactly when no field
      constrains any rule. */
  method SelectDriver(index: QueryIndex, query: DnsQuery, snapshot: Snapshot, ghost rules: seq<Rule>)
      returns (selected: Option<Driver>)
    requires IsQueryIndex(index, rules) && IsSnapshot(snapshot)
    ensures |index.presence| == |FIELDS|
    ensures selected.None? <==> forall f: Field :: !AnyConstrained(rules, f)
    ensures selected.Some? ==> exists chosen: Field ::
      Cheapest(index, rules, query, snapshot, chosen, |FIELDS|)
      && selected.value == Offer(index, chosen, query, snapshot).0
  {
    selected := None;
    var selectedCount := 0;
    ghost var chosen: Option<Field> := None;
    var k := 0;
    while k < |FIELDS|
      invariant 0 <= k <= |FIELDS| && |index.presence| == |FIELDS|
      invariant selected.None? <==> chosen.None?
      invariant chosen.None? ==> forall f: Field :: Index(f) < k ==> !AnyConstrained(rules, f)
      invariant chosen.Some? ==> Cheapest(index, rules, query, snapshot, chosen.value, k)
      invariant chosen.Some? ==> (selected.value, selectedCount) == Offer(index, chosen.value, query, snapshot)
    {
      ConstrainedFlag(index, rules, k);
      CheapestOneMore(index, rules, query, snapshot, chosen, k);
      if index.presence[k].constrained {
        var driver, driverCount := PriceField(index, FIELDS[k], query, snapshot, rules);
        if selected.None? || driverCount < selectedCount {
          selected, selectedCount := Some(driver), driverCount;
          chosen := Some(FIELDS[k]);
        }
      }
      k := k + 1;
    }
  }

  ghost predicate IsNext(candidates: set<nat>, cursor: nat, r: Option<nat>) {
    match r
    case Some(i) => i in candidates && cursor <= i && forall j :: j in candidates && cursor <= j ==> i <= j
    case None => forall j :: j in candidates ==> j < cursor
  }

  ghost function Upto(lists: seq<seq<nat>>, k: nat): set<nat>
    requires k <= |lists|
  {
    set l, c | l in lists[..k] && c in l :: c
  }

  /** The least entry at or after the cursor among ascending lists. */
  method LeastFrom(lists: seq<seq<nat>>, cursor: nat, ghost candidates: set<nat>) returns (next: Option<nat>)
    requires Holds(lists, candidates)
    ensures IsNext(candidates, cursor, next)
  {
    next := None;
    var k := 0;
    while k < |lists|
      invariant 0 <= k <= |lists|
      invariant IsNext(Upto(lists, k), cursor, next)
    {
      var list := lists[k];
      var position := PartitionPoint(list, c => c < cursor);
      assert lists[..k + 1] == lists[..k] + [list];
      assert list in lists;
      OneListMore(lists, k, cursor, position, next);
      if position < |list| && (next.None? || list[position] < next.value) {
        next := Some(list[position]);
      }
      k := k + 1;
    }
    assert lists[..k] == lists;
    assert Upto(lists, k) == candidates by {
      forall c: nat ensures c in Upto(lists, k) <==> InSome(lists, c) {}
    }
  }

  lemma OneListMore(lists: seq<seq<nat>>, k: nat, cursor: nat, position: nat, next: Option<nat>)
    requires k < |lists| && StrictlySorted(lists[k], NatLe)
    requires position == PartitionPoint(lists[k], c => c < cursor)
    requires IsNext(Upto(lists, k), cursor, next)
    ensures IsNext(Upto(lists, k + 1), cursor,
                   if position < |lists[k]| && (next.None? || lists[k][position] < next.value)
                   then Some(lists[k][position]) else next)
  {
    var list := lists[k];
    var before, after := Upto(lists, k), Upto(lists, k + 1);
    assert lists[..k + 1] == lists[..k] + [list];
    forall c: nat ensures c in after <==> c in before || c in list {
      if c in list { assert list in lists[..k + 1]; }
      if c in before {
        var l :| l in lists[..k] && c in l;
        assert l in lists[..k + 1];
      }
    }
    if position < |list| {
      assert list[position] in list;
      assert cursor <= list[position];
      forall c: nat | c in list && cursor <= c ensures list[position] <= c {
        var i :| 0 <= i < |list| && list[i] == c;
        assert position < i ==> NatLe(list[position], list[i]);
      }
    } else {
      assert forall c: nat :: c in list ==> c < cursor;
    }
  }

  /** The least index at or after the cursor that the driver enumerates. */
  method NextCandidate(index: QueryIndex, driver: Driver, cursor: nat, query: DnsQuery, snapshot: Snapshot,
                       ghost rules: seq<Rule>) returns (next: Option<nat>)
    requires IsQueryIndex(index, rules) && IsSnapshot(snapshot)
    ensures IsNext(DriverCandidates(rules, driver, query, snapshot.sets), cursor, next)
  {
    if cursor > U32_MAX {
      return None;
    }
    var lists;
    match driver {
      case Sparse(field) =>
        lists := VisitField(index, field, query, snapshot, rules);
      case DenseRuleSet =>
        var free := index.presence[Index(RuleSetField)].unconstrained;
        assert IsPresence(index.presence[Index(RuleSetField)], rules, RuleSetField);
        lists := [free, index.ruleSetConstrained];
        DenseHoldsAll(rules, free, index.ruleSetConstrained);
    }
    next := LeastFrom(lists, cursor, DriverCandidates(rules, driver, query, snapshot.sets));
  }

  lemma DenseHoldsAll(rules: seq<Rule>, free: seq<nat>, constrained: seq<nat>)
    requires StrictlySorted(free, NatLe) && StrictlySorted(constrained, NatLe)
    requires forall i: nat :: i in free <==> i < |rules| && !Constrained(rules[i], RuleSetField)
    requires forall i: nat :: i in constrained <==> i < |rules| && Constrained(rules[i], RuleSetField)
    ensures Holds([free, constrained], AllRows(rules))
  {
    forall c: nat ensures c in AllRows(rules) <==> InSome([free, constrained], c) {
      assert IsRow(rules, c) <==> c < |rules|;
      assert free in [free, constrained] && constrained in [free, constrained];
    }
  }
}
