/**
 The source of an egress graph: its identities, and what its tags stand for (crates/ferrum2-core/src/route.rs).
 Tags are strings of characters; every accepted one is ASCII, so their count is their length in bytes.
 */
module RouteSource {
  import opened Prelude
  import opened Orders
  import opened RouteGraph
  import Selectors

  const MAX_EGRESS_IDENTITIES: nat := 64
  const MAX_SELECTORS: nat := 64
  const MAX_SELECTOR_MEMBERS: nat := 64
  const MAX_TAG: nat := 64

  datatype Endpoint = Endpoint(tag: string, id: nat)

  datatype TaggedPlan = TaggedPlan(tag: string, hops: seq<nat>)

  datatype Definition = Definition(tag: string, outbounds: seq<string>, defaultTag: Option<string>)

  datatype Source = Source(
    inbounds: seq<Endpoint>, outbounds: seq<Endpoint>, plans: seq<TaggedPlan>,
    definitions: seq<Definition>, roots: seq<string>)

  datatype CompileError =
    | Inbounds | Outbounds | Plans | PlanTag | PlanHops | Selectors | SelectorTag | SelectorOutbounds | SelectorDefault
    | ExtraRoot | UnreachableOutbound | UnreachablePlan | UnreachableSelector

  datatype Compiled = Compiled(plans: seq<seq<nat>>, graph: Graph, selected: seq<nat>, roots: seq<Action>)

  datatype Result<T> = Ok(value: T) | Err(error: CompileError)

  predicate TagChar(c: char) {
    'a' <= c <= 'z' || 'A' <= c <= 'Z' || '0' <= c <= '9' || c in "._-"
  }

  predicate ValidTag(tag: string) {
    1 <= |tag| <= MAX_TAG && forall c :: c in tag ==> TagChar(c)
  }

  /** Letters, digits, dot, underscore and hyphen, by their codes. */
  lemma TagCharMeaning(c: char)
    ensures TagChar(c) <==>
      var code := c as int;
      65 <= code <= 90 || 97 <= code <= 122 || 48 <= code <= 57 || code == 46 || code == 95 || code == 45
  {
    assert c in "._-" <==> c == '.' || c == '_' || c == '-';
  }

  function Each<T, U>(f: T -> U, s: seq<T>): (r: seq<U>)
    ensures |r| == |s| && forall i :: 0 <= i < |s| ==> r[i] == f(s[i])
  {
    seq(|s|, i requires 0 <= i < |s| => f(s[i]))
  }

  function EndpointTags(s: seq<Endpoint>): seq<string> {
    Each((e: Endpoint) => e.tag, s)
  }

  function Ids(s: seq<Endpoint>): seq<nat> {
    Each((e: Endpoint) => e.id, s)
  }

  function PlanTags(s: seq<TaggedPlan>): seq<string> {
    Each((p: TaggedPlan) => p.tag, s)
  }

  function SelectorTags(s: seq<Definition>): seq<string> {
    Each((d: Definition) => d.tag, s)
  }

  // Identities

  predicate EndpointOk(taken: seq<string>, s: seq<Endpoint>, i: nat)
    requires i < |s|
  {
    && ValidTag(s[i].tag) && s[i].tag !in taken
    && forall j :: 0 <= j < i ==> s[j].tag != s[i].tag && s[j].id != s[i].id
  }

  predicate NewTag(taken: seq<string>, tags: seq<string>, i: nat)
    requires i < |tags|
  {
    ValidTag(tags[i]) && tags[i] !in taken && tags[i] !in tags[..i]
  }

  function TakenBySelectors(src: Source): seq<string> {
    EndpointTags(src.inbounds) + EndpointTags(src.outbounds) + PlanTags(src.plans)
  }

  /** Every tag that can be named, in every role. */
  function AllTags(src: Source): seq<string> {
    TakenBySelectors(src) + SelectorTags(src.definitions)
  }

  ghost predicate TagsOk(tags: seq<string>) {
    Distinct(tags) && forall t :: t in tags ==> ValidTag(t)
  }

  ghost predicate InboundsFit(src: Source) {
    && 1 <= |src.inbounds| <= MAX_EGRESS_IDENTITIES
    && TagsOk(EndpointTags(src.inbounds)) && Distinct(Ids(src.inbounds))
  }

  ghost predicate OutboundsFit(src: Source) {
    && 1 <= |src.outbounds| <= MAX_EGRESS_IDENTITIES
    && TagsOk(EndpointTags(src.inbounds) + EndpointTags(src.outbounds)) && Distinct(Ids(src.outbounds))
  }

  /** The tags before the plans' and those of the first plans. */
  function TagsUpTo(src: Source, plans: nat): seq<string>
    requires plans <= |src.plans|
  {
    EndpointTags(src.inbounds) + EndpointTags(src.outbounds) + PlanTags(src.plans)[..plans]
  }

  ghost predicate HopsFit(src: Source, p: nat)
    requires p < |src.plans|
  {
    var hops := src.plans[p].hops;
    2 <= |hops| <= 8 && Distinct(hops) && forall h :: h in hops ==> h in Ids(src.outbounds)
  }

  /** The first plans have tags that are new and hops that fit. */
  ghost predicate PlansFit(src: Source, plans: nat)
    requires plans <= |src.plans|
  {
    TagsOk(TagsUpTo(src, plans)) && forall p: nat :: p < plans ==> HopsFit(src, p)
  }

  /** The plan's tag is valid and different from all before it. */
  ghost predicate TagFits(src: Source, p: nat)
    requires p < |src.plans|
  {
    TagsOk(TagsUpTo(src, p + 1))
  }

  ghost predicate SomePlanTagFails(src: Source) {
    exists p: nat :: p < |src.plans| && PlansFit(src, p) && !TagFits(src, p)
  }

  /** The first requirement an identity fails, plan by plan, decides the error. */
  ghost function IdentityError(src: Source): Option<CompileError> {
    if !InboundsFit(src) then Some(Inbounds)
    else if !OutboundsFit(src) then Some(Outbounds)
    else if |src.plans| > MAX_SELECTORS then Some(Plans)
    else if SomePlanTagFails(src) then Some(PlanTag)
    else if !PlansFit(src, |src.plans|) then Some(PlanHops)
    else if |src.definitions| > MAX_SELECTORS then Some(Selectors)
    else if !TagsOk(AllTags(src)) then Some(SelectorTag)
    else None
  }

  // Definitions and roots

  function ResolveTag(src: Source, tag: string): Option<Action> {
    var outbound := Selectors.FirstTag(EndpointTags(src.outbounds), tag);
    if outbound.Some? then Some(Plan(outbound.value))
    else
      var plan := Selectors.FirstTag(PlanTags(src.plans), tag);
      if plan.Some? then Some(Plan(|src.outbounds| + plan.value))
      else
        var selector := Selectors.FirstTag(SelectorTags(src.definitions), tag);
        if selector.Some? then Some(Selector(selector.value)) else None
  }

  /** The tags a root or a member can name. */
  function EgressTags(src: Source): seq<string> {
    EndpointTags(src.outbounds) + PlanTags(src.plans) + SelectorTags(src.definitions)
  }

  lemma ResolvesNamed(src: Source, tag: string)
    ensures ResolveTag(src, tag).Some? <==> tag in EgressTags(src)
    ensures ResolveTag(src, tag).Some? ==>
      ActionInRange(GraphOf(src), |PlansOf(src)|, ResolveTag(src, tag).value)
  {
  }

  ghost predicate MembersFit(src: Source, d: Definition) {
    && 1 <= |d.outbounds| <= MAX_SELECTOR_MEMBERS && Distinct(d.outbounds)
    && forall t :: t in d.outbounds ==> t in EgressTags(src)
  }

  ghost predicate DefaultFits(d: Definition) {
    d.defaultTag.Some? && d.defaultTag.value in d.outbounds
  }

  ghost function DefinitionError(src: Source, d: Definition): Option<CompileError> {
    if !MembersFit(src, d) then Some(SelectorOutbounds) else if !DefaultFits(d) then Some(SelectorDefault) else None
  }

  /** The error of the first definition that has one. */
  ghost function DefinitionsError(src: Source, definitions: seq<Definition>): Option<CompileError> {
    if definitions == [] then None
    else if DefinitionError(src, definitions[0]).Some? then DefinitionError(src, definitions[0])
    else DefinitionsError(src, definitions[1..])
  }

  // What compilation produces

  function MemberAction(src: Source, tag: string): Action {
    var action := ResolveTag(src, tag);
    if action.Some? then action.value else Plan(0)
  }

  function Actions(src: Source, tags: seq<string>): (r: seq<Action>)
    ensures |r| == |tags|
  {
    seq(|tags|, i requires 0 <= i < |tags| => MemberAction(src, tags[i]))
  }

  function GraphOf(src: Source): (r: Graph)
    ensures |r| == |src.definitions|
  {
    seq(|src.definitions|, i requires 0 <= i < |src.definitions| => Actions(src, src.definitions[i].outbounds))
  }

  function PlansOf(src: Source): (r: seq<seq<nat>>)
    ensures |r| == |src.outbounds| + |src.plans|
  {
    seq(|src.outbounds|, i requires 0 <= i < |src.outbounds| => [src.outbounds[i].id])
    + seq(|src.plans|, i requires 0 <= i < |src.plans| => src.plans[i].hops)
  }

  ghost predicate RootsOk(src: Source) {
    forall t :: t in src.roots ==> t in EgressTags(src)
  }

  lemma {:induction false} DefinitionsErrorFirst(src: Source, definitions: seq<Definition>, k: nat)
    requires k <= |definitions| && forall i :: 0 <= i < k ==> DefinitionError(src, definitions[i]).None?
    ensures DefinitionsError(src, definitions) == DefinitionsError(src, definitions[k..])
  {
    if k > 0 {
      DefinitionsErrorFirst(src, definitions[1..], k - 1);
      assert definitions[1..][k - 1..] == definitions[k..];
    }
  }

  lemma NoDefinitionError(src: Source, i: nat)
    requires DefinitionsError(src, src.definitions).None? && i < |src.definitions|
    ensures DefinitionError(src, src.definitions[i]).None?
    decreases i
  {
    forall j: nat | j < i ensures DefinitionError(src, src.definitions[j]).None? { NoDefinitionError(src, j); }
    DefinitionsErrorFirst(src, src.definitions, i);
  }

  lemma GraphInRange(src: Source)
    requires DefinitionsError(src, src.definitions).None?
    ensures InRange(GraphOf(src), |PlansOf(src)|) && SelectorsInRange(GraphOf(src))
  {
    var graph := GraphOf(src);
    forall s, i | 0 <= s < |graph| && 0 <= i < |graph[s]| ensures ActionInRange(graph, |PlansOf(src)|, graph[s][i]) {
      NoDefinitionError(src, s);
      ResolvesNamed(src, src.definitions[s].outbounds[i]);
    }
    forall s, i | 0 <= s < |graph| && 0 <= i < |graph[s]| && graph[s][i].Selector?
      ensures graph[s][i].selector < |graph|
    {
      assert ActionInRange(graph, |PlansOf(src)|, graph[s][i]);
    }
  }

  /** A selector starts on the member its default names. */
  predicate SelectsDefault(d: Definition, member: nat) {
    member < |d.outbounds| && d.defaultTag == Some(d.outbounds[member])
  }

  lemma PlanHopsKnown(src: Source, p: nat, id: nat)
    requires IdentityError(src).None? && p < |PlansOf(src)| && id in PlansOf(src)[p]
    ensures id in Ids(src.outbounds)
  {
    if p < |src.outbounds| {
      assert Ids(src.outbounds)[p] == id;
    } else {
      assert HopsFit(src, p - |src.outbounds|);
    }
  }

  lemma PlanIsKnown(src: Source, p: nat)
    requires IdentityError(src).None? && p < |PlansOf(src)|
    ensures PlansOf(src)[p] != [] && forall h :: h in PlansOf(src)[p] ==> h in Ids(src.outbounds)
  {
    forall h | h in PlansOf(src)[p] ensures h in Ids(src.outbounds) { PlanHopsKnown(src, p, h); }
    if p >= |src.outbounds| {
      assert HopsFit(src, p - |src.outbounds|);
    }
  }

  lemma IdsDistinct(src: Source, i: nat, j: nat)
    requires IdentityError(src).None? && i < |src.outbounds| && j < |src.outbounds|
    requires src.outbounds[i].id == src.outbounds[j].id
    ensures i == j
  {
    assert Ids(src.outbounds)[i] == Ids(src.outbounds)[j];
  }

  lemma RootsInRange(src: Source)
    requires RootsOk(src)
    ensures forall a :: a in Actions(src, src.roots) ==> ActionInRange(GraphOf(src), |PlansOf(src)|, a)
  {
    var roots := Actions(src, src.roots);
    forall a | a in roots ensures ActionInRange(GraphOf(src), |PlansOf(src)|, a) {
      var i :| 0 <= i < |roots| && roots[i] == a;
      ResolvesNamed(src, src.roots[i]);
    }
  }

  // Admitting tags one after another

  ghost predicate Admitted(taken: seq<string>, tags: seq<string>) {
    forall i :: 0 <= i < |tags| ==> NewTag(taken, tags, i)
  }

  /** Admitting one list of tags after another means that all are valid and no two are the same. */
  lemma AdmittedMeaning(taken: seq<string>, tags: seq<string>)
    requires TagsOk(taken)
    ensures Admitted(taken, tags) <==> TagsOk(taken + tags)
  {
    var all := taken + tags;
    if Admitted(taken, tags) {
      forall i, j | 0 <= i < j < |all| ensures all[i] != all[j] {
        if j >= |taken| {
          assert NewTag(taken, tags, j - |taken|);
          if i >= |taken| { assert tags[..j - |taken|][i - |taken|] == all[i]; } else { assert all[i] in taken; }
        } else {
          assert taken[i] != taken[j];
        }
      }
      forall t | t in all ensures ValidTag(t) {
        var i :| 0 <= i < |all| && all[i] == t;
        if i >= |taken| { assert NewTag(taken, tags, i - |taken|); }
      }
    }
    if Distinct(all) && forall t :: t in all ==> ValidTag(t) {
      forall i | 0 <= i < |tags| ensures NewTag(taken, tags, i) {
        assert all[|taken| + i] == tags[i];
        assert tags[i] in all;
        forall t | t in taken ensures t != tags[i] {
          var k :| 0 <= k < |taken| && taken[k] == t;
          assert all[k] != all[|taken| + i];
        }
        forall k | 0 <= k < i ensures tags[k] != tags[i] {
          assert all[|taken| + k] != all[|taken| + i];
        }
      }
    }
  }

  ghost predicate EndpointsOk(taken: seq<string>, s: seq<Endpoint>) {
    forall i :: 0 <= i < |s| ==> EndpointOk(taken, s, i)
  }

  lemma EndpointsMeaning(taken: seq<string>, s: seq<Endpoint>)
    ensures EndpointsOk(taken, s) <==> Admitted(taken, EndpointTags(s)) && Distinct(Ids(s))
  {
    var tags, ids := EndpointTags(s), Ids(s);
    if EndpointsOk(taken, s) {
      forall i | 0 <= i < |s| ensures NewTag(taken, tags, i) { assert EndpointOk(taken, s, i); }
      forall i, j | 0 <= i < j < |s| ensures ids[i] != ids[j] { assert EndpointOk(taken, s, j); }
    }
    if Admitted(taken, tags) && Distinct(ids) {
      forall i | 0 <= i < |s| ensures EndpointOk(taken, s, i) {
        assert NewTag(taken, tags, i);
        forall j | 0 <= j < i ensures s[j].tag != s[i].tag && s[j].id != s[i].id {
          assert tags[..i][j] == s[j].tag;
          assert ids[j] != ids[i];
        }
      }
    }
  }

  lemma TagsOkPart(a: seq<string>, b: seq<string>)
    requires TagsOk(a + b)
    ensures TagsOk(a)
  {
    forall i, j | 0 <= i < j < |a| ensures a[i] != a[j] { assert (a + b)[i] != (a + b)[j]; }
    forall t | t in a ensures ValidTag(t) { assert t in a + b; }
  }

  lemma TagsUpToPart(src: Source, p: nat, q: nat)
    requires p <= q <= |src.plans| && TagsOk(TagsUpTo(src, q))
    ensures TagsOk(TagsUpTo(src, p))
  {
    var tags := PlanTags(src.plans);
    assert TagsUpTo(src, q) == TagsUpTo(src, p) + tags[p..q];
    TagsOkPart(TagsUpTo(src, p), tags[p..q]);
  }

  /** The next plan's tag is fine if it is valid and new. */
  lemma NextTag(src: Source, p: nat)
    requires p < |src.plans| && TagsOk(TagsUpTo(src, p))
    ensures TagFits(src, p)
      <==> NewTag(EndpointTags(src.inbounds) + EndpointTags(src.outbounds), PlanTags(src.plans), p)
  {
    var tags := PlanTags(src.plans);
    var taken := EndpointTags(src.inbounds) + EndpointTags(src.outbounds);
    AdmittedMeaning(TagsUpTo(src, p), [tags[p]]);
    assert TagsUpTo(src, p) + [tags[p]] == TagsUpTo(src, p + 1);
    assert Admitted(TagsUpTo(src, p), [tags[p]]) <==> NewTag(TagsUpTo(src, p), [tags[p]], 0);
  }

  /** The first plan whose hops fail decides, whatever comes after it. */
  lemma HopsDecide(src: Source, p: nat)
    requires p < |src.plans| && PlansFit(src, p) && TagFits(src, p) && !HopsFit(src, p)
    ensures !SomePlanTagFails(src) && !PlansFit(src, |src.plans|)
  {
    forall q: nat | q < |src.plans| ensures !PlansFit(src, q) || TagFits(src, q) {
      if q <= p { TagsUpToPart(src, q + 1, p + 1); }
    }
  }

  lemma AllPlansFit(src: Source)
    requires PlansFit(src, |src.plans|)
    ensures !SomePlanTagFails(src)
  {
    forall q: nat | q < |src.plans| ensures TagFits(src, q) { TagsUpToPart(src, q + 1, |src.plans|); }
  }

  lemma AllHopsFit(src: Source)
    ensures (forall p: nat :: p < |src.plans| ==> HopsFit(src, p)) <==>
      forall p :: p in src.plans ==>
        2 <= |p.hops| <= 8 && Distinct(p.hops) && forall h :: h in p.hops ==> h in Ids(src.outbounds)
  {
    if forall p: nat :: p < |src.plans| ==> HopsFit(src, p) {
      forall p | p in src.plans
        ensures 2 <= |p.hops| <= 8 && Distinct(p.hops) && forall h :: h in p.hops ==> h in Ids(src.outbounds)
      {
        var q: nat :| q < |src.plans| && src.plans[q] == p;
        assert HopsFit(src, q);
      }
    }
    if forall p :: p in src.plans ==>
        2 <= |p.hops| <= 8 && Distinct(p.hops) && forall h :: h in p.hops ==> h in Ids(src.outbounds) {
      forall q: nat | q < |src.plans| ensures HopsFit(src, q) { assert src.plans[q] in src.plans; }
    }
  }

  /** The identity checks pass exactly when the sizes fit, all tags are valid and different across all roles, ids are
      different within theirs, and plans hop through 2 to 8 different known outbounds. */
  lemma IdentityMeaning(src: Source)
    ensures IdentityError(src).None? <==>
      && 1 <= |src.inbounds| <= 64 && 1 <= |src.outbounds| <= 64 && |src.plans| <= 64 && |src.definitions| <= 64
      && TagsOk(AllTags(src)) && Distinct(Ids(src.inbounds)) && Distinct(Ids(src.outbounds))
      && forall p :: p in src.plans ==>
           2 <= |p.hops| <= 8 && Distinct(p.hops) && forall h :: h in p.hops ==> h in Ids(src.outbounds)
  {
    var a, b, c := EndpointTags(src.inbounds), EndpointTags(src.outbounds), PlanTags(src.plans);
    assert c[..|c|] == c;
    AllHopsFit(src);
    if TagsOk(AllTags(src)) {
      TagsOkPart(a + b + c, SelectorTags(src.definitions));
      TagsOkPart(a + b, c);
      TagsOkPart(a, b);
      if forall p: nat :: p < |src.plans| ==> HopsFit(src, p) {
        AllPlansFit(src);
      }
    }
  }
}
