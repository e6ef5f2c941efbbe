/**
 Alias chains and cacheable answers (crates/ferrum2-dns/src/response.rs; section 3.6.2 of RFC 1034, section 5 of
 RFC 2308). Names are compared by equality only.
 */
module Responses {
  import opened Prelude
  import opened Orders
  import opened Digraph

  const MAX_ADDRESSES: nat := 16

  type Name = nat

  datatype Data = Cname(target: Name) | A(v4: nat) | Aaaa(v6: nat) | Soa(minimum: nat) | OtherData

  datatype Record = Record(name: Name, data: Data, ttl: nat)

  datatype ResponseCode = NoError | NXDomain | OtherCode

  datatype Message = Message(answers: seq<Record>, authorities: seq<Record>, truncation: bool, code: ResponseCode)

  datatype Address = V4(v4: nat) | V6(v6: nat)

  datatype QueryType = AskA | AskAaaa | AskOther

  datatype Terminal = Terminal(owner: Name, ttl: Option<nat>)

  datatype Answer = Negative | Positive(addresses: seq<Address>)

  // The alias chain, without any bound

  ghost predicate HasTarget(answers: seq<Record>, owner: Name, target: Name) {
    exists r :: r in answers && r.name == owner && r.data == Cname(target)
  }

  predicate IsAddress(d: Data) {
    d.A? || d.Aaaa?
  }

  ghost predicate HasAddress(answers: seq<Record>, owner: Name) {
    exists r :: r in answers && r.name == owner && IsAddress(r.data)
  }

  /** Two different alias targets, or an alias beside an address. */
  ghost predicate Ambiguous(answers: seq<Record>, owner: Name) {
    exists t :: HasTarget(answers, owner, t)
      && (HasAddress(answers, owner) || exists u :: u != t && HasTarget(answers, owner, u))
  }

  ghost predicate Leads(answers: seq<Record>, owner: Name, target: Name) {
    HasTarget(answers, owner, target) && !Ambiguous(answers, owner)
  }

  ghost predicate IsTerminal(answers: seq<Record>, owner: Name) {
    forall t :: !HasTarget(answers, owner, t)
  }

  ghost predicate IsChain(answers: seq<Record>, qname: Name, chain: seq<Name>) {
    && chain != [] && chain[0] == qname
    && forall k :: 0 <= k < |chain| - 1 ==> Leads(answers, chain[k], chain[k + 1])
  }

  ghost function Last(chain: seq<Name>): Name
    requires chain != []
  {
    chain[|chain| - 1]
  }

  /** Lifetimes of all alias records of the chain. */
  ghost function AliasTtls(answers: seq<Record>, chain: seq<Name>): set<nat> {
    set r | r in answers && r.data.Cname? && r.name in chain :: r.ttl
  }

  ghost predicate IsLeast(ttls: set<nat>, least: Option<nat>) {
    match least
    case None => ttls == {}
    case Some(t) => t in ttls && forall u :: u in ttls ==> t <= u
  }

  ghost predicate EndsAt(answers: seq<Record>, qname: Name, chain: seq<Name>, t: Terminal) {
    && IsChain(answers, qname, chain) && Last(chain) == t.owner && IsTerminal(answers, t.owner)
    && IsLeast(AliasTtls(answers, chain), t.ttl)
  }

  /** The chain comes to an ambiguous owner or back to one it passed. */
  ghost predicate Fails(answers: seq<Record>, qname: Name, chain: seq<Name>) {
    IsChain(answers, qname, chain) && (Ambiguous(answers, Last(chain)) || Last(chain) in chain[..|chain| - 1])
  }

  ghost predicate IsFinalOwner(answers: seq<Record>, qname: Name, r: Option<Terminal>) {
    match r
    case Some(t) => exists chain :: EndsAt(answers, qname, chain, t)
    case None => exists chain :: Fails(answers, qname, chain)
  }

  // There is one outcome, and record order does not matter

  lemma LeadsOnce(answers: seq<Record>, owner: Name, t: Name, u: Name)
    requires Leads(answers, owner, t) && HasTarget(answers, owner, u)
    ensures t == u
  {
  }

  lemma {:induction false} ChainsAgree(answers: seq<Record>, qname: Name, a: seq<Name>, b: seq<Name>, k: nat)
    requires IsChain(answers, qname, a) && IsChain(answers, qname, b) && k < |a| && k < |b|
    ensures a[k] == b[k]
  {
    if k > 0 {
      ChainsAgree(answers, qname, a, b, k - 1);
      assert Leads(answers, a[k - 1], a[k]) && Leads(answers, b[k - 1], b[k]);
      LeadsOnce(answers, a[k - 1], a[k], b[k]);
    }
  }

  lemma {:induction false} RepeatsGoOn(answers: seq<Record>, qname: Name, chain: seq<Name>, i: nat, j: nat, m: nat)
    requires IsChain(answers, qname, chain) && i < j && j + m < |chain| && chain[i] == chain[j]
    ensures chain[i + m] == chain[j + m]
  {
    if m > 0 {
      RepeatsGoOn(answers, qname, chain, i, j, m - 1);
      assert Leads(answers, chain[i + m - 1], chain[i + m]) && Leads(answers, chain[j + m - 1], chain[j + m]);
      LeadsOnce(answers, chain[i + m - 1], chain[i + m], chain[j + m]);
    }
  }

  lemma PassedLeads(answers: seq<Record>, qname: Name, chain: seq<Name>, k: nat)
    requires IsChain(answers, qname, chain) && k < |chain| - 1
    ensures Leads(answers, chain[k], chain[k + 1]) && !IsTerminal(answers, chain[k])
  {
  }

  /** A chain that ends at a terminal owner passes no owner twice. */
  lemma TerminalChainIsDistinct(answers: seq<Record>, qname: Name, chain: seq<Name>)
    requires IsChain(answers, qname, chain) && IsTerminal(answers, Last(chain))
    ensures Distinct(chain)
  {
    forall i, j | 0 <= i < j < |chain| ensures chain[i] != chain[j] {
      if chain[i] == chain[j] {
        var m := |chain| - 1 - j;
        RepeatsGoOn(answers, qname, chain, i, j, m);
        PassedLeads(answers, qname, chain, i + m);
        assert false;
      }
    }
  }

  lemma TerminalIsTheEnd(answers: seq<Record>, qname: Name, a: seq<Name>, b: seq<Name>)
    requires IsChain(answers, qname, a) && IsChain(answers, qname, b) && IsTerminal(answers, Last(a))
    ensures |b| <= |a| && b == a[..|b|]
  {
    if |a| < |b| {
      ChainsAgree(answers, qname, a, b, |a| - 1);
      PassedLeads(answers, qname, b, |a| - 1);
      assert false;
    }
    forall k | 0 <= k < |b| ensures a[k] == b[k] { ChainsAgree(answers, qname, a, b, k); }
  }

  lemma EndOrFailure(answers: seq<Record>, qname: Name, a: seq<Name>, b: seq<Name>, t: Terminal)
    requires EndsAt(answers, qname, a, t)
    ensures !Fails(answers, qname, b)
  {
    if Fails(answers, qname, b) {
      TerminalIsTheEnd(answers, qname, a, b);
      TerminalChainIsDistinct(answers, qname, a);
      if |b| < |a| {
        PassedLeads(answers, qname, a, |b| - 1);
      }
      assert false;
    }
  }

  lemma LeastOnce(ttls: set<nat>, a: Option<nat>, b: Option<nat>)
    requires IsLeast(ttls, a) && IsLeast(ttls, b)
    ensures a == b
  {
  }

  /** No message gives two outcomes. */
  lemma FinalOwnerOnce(answers: seq<Record>, qname: Name, r: Option<Terminal>, s: Option<Terminal>)
    requires IsFinalOwner(answers, qname, r) && IsFinalOwner(answers, qname, s)
    ensures r == s
  {
    if r.Some? {
      var a :| EndsAt(answers, qname, a, r.value);
      if s.None? {
        var b :| Fails(answers, qname, b);
        EndOrFailure(answers, qname, a, b, r.value);
        assert false;
      } else {
        var b :| EndsAt(answers, qname, b, s.value);
        TerminalIsTheEnd(answers, qname, a, b);
        TerminalIsTheEnd(answers, qname, b, a);
        assert a == b;
        LeastOnce(AliasTtls(answers, a), r.value.ttl, s.value.ttl);
      }
    } else if s.Some? {
      var a :| EndsAt(answers, qname, a, s.value);
      var b :| Fails(answers, qname, b);
      EndOrFailure(answers, qname, a, b, s.value);
      assert false;
    }
  }

  ghost predicate SameRecords(a: seq<Record>, b: seq<Record>) {
    forall r :: r in a <==> r in b
  }

  lemma SameRecordsLead(a: seq<Record>, b: seq<Record>, owner: Name)
    requires SameRecords(a, b)
    ensures forall t :: HasTarget(a, owner, t) <==> HasTarget(b, owner, t)
    ensures HasAddress(a, owner) <==> HasAddress(b, owner)
    ensures Ambiguous(a, owner) <==> Ambiguous(b, owner)
  {
    assert forall t :: HasTarget(a, owner, t) <==> HasTarget(b, owner, t);
    assert HasAddress(a, owner) <==> HasAddress(b, owner);
  }

  lemma SameRecordsChain(a: seq<Record>, b: seq<Record>, qname: Name, chain: seq<Name>)
    requires SameRecords(a, b) && IsChain(a, qname, chain)
    ensures IsChain(b, qname, chain) && AliasTtls(a, chain) == AliasTtls(b, chain)
    ensures IsTerminal(a, Last(chain)) ==> IsTerminal(b, Last(chain))
    ensures Ambiguous(a, Last(chain)) ==> Ambiguous(b, Last(chain))
  {
    forall k | 0 <= k < |chain| ensures Ambiguous(a, chain[k]) <==> Ambiguous(b, chain[k]) {
      SameRecordsLead(a, b, chain[k]);
    }
    forall k | 0 <= k < |chain| - 1 ensures Leads(b, chain[k], chain[k + 1]) {
      assert Leads(a, chain[k], chain[k + 1]);
      SameRecordsLead(a, b, chain[k]);
    }
    SameRecordsLead(a, b, Last(chain));
  }

  /** Neither the order nor the repetition of records changes the outcome. */
  lemma FinalOwnerIgnoresOrder(a: seq<Record>, b: seq<Record>, qname: Name, r: Option<Terminal>)
    requires SameRecords(a, b) && IsFinalOwner(a, qname, r)
    ensures IsFinalOwner(b, qname, r)
  {
    if r.Some? {
      var chain :| EndsAt(a, qname, chain, r.value);
      SameRecordsChain(a, b, qname, chain);
      assert EndsAt(b, qname, chain, r.value);
    } else {
      var chain :| Fails(a, qname, chain);
      SameRecordsChain(a, b, qname, chain);
      assert Fails(b, qname, chain);
    }
  }

  // The bounded walk

  function Smaller(least: Option<nat>, ttl: nat): Option<nat> {
    if least.None? || ttl < least.value then Some(ttl) else least
  }

  lemma LeastGrows(ttls: set<nat>, least: Option<nat>, ttl: nat)
    requires IsLeast(ttls, least)
    ensures IsLeast(ttls + {ttl}, Smaller(least, ttl))
  {
  }

  datatype Scan = Scan(conflict: bool, next: Option<Name>, hasAddress: bool, ttl: Option<nat>)

  /** The records at one owner among the first ones of the answer. */
  ghost predicate Scanned(part: seq<Record>, owner: Name, before: set<nat>, s: Scan) {
    && (forall t: Name :: HasTarget(part, owner, t) <==> s.next == Some(t))
    && (s.hasAddress <==> HasAddress(part, owner))
    && IsLeast(before + AliasTtls(part, [owner]), s.ttl)
  }

  lemma ScanOneMore(part: seq<Record>, r: Record, owner: Name)
    ensures forall t :: HasTarget(part + [r], owner, t) <==>
      HasTarget(part, owner, t) || (r.name == owner && r.data == Cname(t))
    ensures HasAddress(part + [r], owner) <==> HasAddress(part, owner) || (r.name == owner && IsAddress(r.data))
    ensures AliasTtls(part + [r], [owner]) ==
      AliasTtls(part, [owner]) + if r.name == owner && r.data.Cname? then {r.ttl} else {}
  {
    forall x ensures x in part + [r] <==> x in part || x == r { assert r == (part + [r])[|part|]; }
  }

  lemma AliasLeast(part: seq<Record>, r: Record, owner: Name, before: set<nat>, least: Option<nat>)
    requires r.name == owner && r.data.Cname? && IsLeast(before + AliasTtls(part, [owner]), least)
    ensures IsLeast(before + AliasTtls(part + [r], [owner]), Smaller(least, r.ttl))
  {
    ScanOneMore(part, r, owner);
    LeastGrows(before + AliasTtls(part, [owner]), least, r.ttl);
    assert before + AliasTtls(part + [r], [owner]) == before + AliasTtls(part, [owner]) + {r.ttl};
  }

  method ScanOwner(answers: seq<Record>, owner: Name, least: Option<nat>, ghost before: set<nat>) returns (s: Scan)
    requires IsLeast(before, least)
    ensures s.conflict ==> Ambiguous(answers, owner)
    ensures !s.conflict ==> Scanned(answers, owner, before, s)
  {
    var next: Option<Name>, hasAddress, ttl := None, false, least;
    assert before + AliasTtls(answers[..0], [owner]) == before;
    for i := 0 to |answers|
      invariant Scanned(answers[..i], owner, before, Scan(false, next, hasAddress, ttl))
    {
      var record := answers[i];
      assert answers[..i + 1] == answers[..i] + [record];
      ScanOneMore(answers[..i], record, owner);
      if record.name == owner {
        match record.data {
          case Cname(target) =>
            if next.Some? && next.value != target {
              assert HasTarget(answers[..i], owner, next.value);
              Conflict(answers, i, owner, next.value, target);
              return Scan(true, None, false, None);
            }
            next := Some(target);
            AliasLeast(answers[..i], record, owner, before, ttl);
            ttl := Smaller(ttl, record.ttl);
          case A(_) => hasAddress := true;
          case Aaaa(_) => hasAddress := true;
          case _ =>
        }
      }
    }
    assert answers[..|answers|] == answers;
    return Scan(false, next, hasAddress, ttl);
  }

  lemma Conflict(answers: seq<Record>, i: nat, owner: Name, t: Name, u: Name)
    requires i < |answers| && HasTarget(answers[..i], owner, t) && t != u
    requires answers[i].name == owner && answers[i].data == Cname(u)
    ensures Ambiguous(answers, owner)
  {
    assert HasTarget(answers, owner, t);
    assert answers[i] in answers;
    assert HasTarget(answers, owner, u);
  }

  lemma ChainGrows(answers: seq<Record>, qname: Name, chain: seq<Name>, next: Name)
    requires IsChain(answers, qname, chain) && Leads(answers, Last(chain), next)
    ensures IsChain(answers, qname, chain + [next])
  {
    var longer := chain + [next];
    forall k | 0 <= k < |longer| - 1 ensures Leads(answers, longer[k], longer[k + 1]) {
      if k < |chain| - 1 { assert Leads(answers, chain[k], chain[k + 1]); }
    }
  }

  lemma {:induction false} ElementsFit(s: seq<Name>)
    ensures |Elements(s)| <= |s|
  {
    if s != [] {
      ElementsFit(s[1..]);
      assert Elements(s) <= Elements(s[1..]) + {s[0]} by {
        forall x | x in s ensures x in s[1..] || x == s[0] {}
      }
      var part := Elements(s[1..]) + {s[0]};
      if Elements(s) != part { SmallerSubset(Elements(s), part); }
    }
  }

  /** A walk with more steps than there are records comes back to an owner it passed. */
  lemma LongWalkRepeats(answers: seq<Record>, qname: Name, chain: seq<Name>)
    requires IsChain(answers, qname, chain) && |chain| == |answers| + 2
    ensures exists shorter :: Fails(answers, qname, shorter)
  {
    var names: seq<Name> := seq(|answers|, i requires 0 <= i < |answers| => answers[i].name);
    var walked: seq<Name> := chain[..|answers| + 1];
    if Distinct(walked) {
      forall x | x in Elements(walked) ensures x in Elements(names) {
        var k :| 0 <= k < |walked| && walked[k] == x;
        assert Leads(answers, chain[k], chain[k + 1]);
        var r :| r in answers && r.name == x;
        var i :| 0 <= i < |answers| && answers[i] == r;
        assert names[i] == x;
      }
      DistinctCard(walked);
      ElementsFit(names);
      if Elements(walked) != Elements(names) { SmallerSubset(Elements(walked), Elements(names)); }
      assert false;
    }
    var i, j :| 0 <= i < j < |walked| && walked[i] == walked[j];
    var shorter := chain[..j + 1];
    assert IsChain(answers, qname, shorter) by {
      forall k | 0 <= k < |shorter| - 1 ensures Leads(answers, shorter[k], shorter[k + 1]) {
        assert Leads(answers, chain[k], chain[k + 1]);
      }
    }
    assert shorter[..|shorter| - 1][i] == Last(shorter);
    assert Fails(answers, qname, shorter);
  }

  /** The walk bounded by the number of answers finds what the unbounded definition says. */
  method FinalOwner(qname: Name, answers: seq<Record>) returns (r: Option<Terminal>)
    ensures IsFinalOwner(answers, qname, r)
  {
    var owner := qname;
    var ttl: Option<nat> := None;
    ghost var chain: seq<Name> := [qname];
    assert AliasTtls(answers, chain[..0]) == {};
    for step := 0 to |answers| + 1
      invariant IsChain(answers, qname, chain) && |chain| == step + 1 && Last(chain) == owner
      invariant IsLeast(AliasTtls(answers, chain[..step]), ttl)
    {
      var scan := ScanOwner(answers, owner, ttl, AliasTtls(answers, chain[..step]));
      if scan.conflict {
        assert Fails(answers, qname, chain);
        return None;
      }
      assert chain == chain[..step] + [owner];
      assert AliasTtls(answers, chain) == AliasTtls(answers, chain[..step]) + AliasTtls(answers, [owner]);
      ttl := scan.ttl;
      if scan.next.None? {
        assert EndsAt(answers, qname, chain, Terminal(owner, ttl));
        return Some(Terminal(owner, ttl));
      }
      assert HasTarget(answers, owner, scan.next.value);
      if scan.hasAddress {
        assert Fails(answers, qname, chain);
        return None;
      }
      assert Leads(answers, owner, scan.next.value);
      ChainGrows(answers, qname, chain, scan.next.value);
      owner := scan.next.value;
      assert (chain + [owner])[..step + 1] == chain;
      chain := chain + [owner];
    }
    LongWalkRepeats(answers, qname, chain);
    return None;
  }

  /** Every name but the last has alias records to the next name only and no address record, and the last has no alias
      record. */
  ghost predicate IsPlainChain(answers: seq<Record>, qname: Name, chain: seq<Name>) {
    && chain != [] && chain[0] == qname
    && (forall k :: 0 <= k < |chain| - 1 ==> AliasTo(answers, chain[k], chain[k + 1]))
    && forall r :: r in answers && r.name == chain[|chain| - 1] ==> !r.data.Cname?
  }

  ghost predicate AliasTo(answers: seq<Record>, owner: Name, target: Name) {
    && (exists r :: r in answers && r.name == owner && r.data == Cname(target))
    && forall r :: r in answers && r.name == owner ==>
         !r.data.A? && !r.data.Aaaa? && (r.data.Cname? ==> r.data.target == target)
  }

  lemma LeadsIsAlias(answers: seq<Record>, owner: Name, target: Name)
    ensures Leads(answers, owner, target) <==> AliasTo(answers, owner, target)
  {
    if Leads(answers, owner, target) {
      forall r | r in answers && r.name == owner
        ensures !r.data.A? && !r.data.Aaaa? && (r.data.Cname? ==> r.data.target == target)
      {
        if r.data.Cname? { assert HasTarget(answers, owner, r.data.target); }
        assert IsAddress(r.data) ==> HasAddress(answers, owner);
      }
    }
  }

  lemma PlainChainMeaning(answers: seq<Record>, qname: Name, chain: seq<Name>)
    ensures IsPlainChain(answers, qname, chain) <==>
      IsChain(answers, qname, chain) && IsTerminal(answers, chain[|chain| - 1])
  {
    forall k | 0 <= k < |chain| - 1
      ensures Leads(answers, chain[k], chain[k + 1]) <==> AliasTo(answers, chain[k], chain[k + 1])
    {
      LeadsIsAlias(answers, chain[k], chain[k + 1]);
    }
    if chain != [] && IsTerminal(answers, chain[|chain| - 1]) {
      forall r | r in answers && r.name == chain[|chain| - 1] ensures !r.data.Cname? {
        assert r.data.Cname? ==> HasTarget(answers, chain[|chain| - 1], r.data.target);
      }
    }
  }

  lemma {:induction false} SomeLeast(ttls: set<nat>) returns (least: Option<nat>)
    ensures IsLeast(ttls, least)
  {
    if ttls == {} {
      least := None;
    } else {
      var t :| t in ttls;
      var rest := SomeLeast(ttls - {t});
      least := Some(if rest.Some? && rest.value < t then rest.value else t);
      assert forall u :: u in ttls ==> u == t || u in ttls - {t};
    }
  }

  /** An owner is found exactly if plain aliases lead from the name asked for to a name without any; its lifetime is the
      least of all alias records on the way. */
  lemma FinalOwnerMeaning(answers: seq<Record>, qname: Name, found: Option<Terminal>)
    requires IsFinalOwner(answers, qname, found)
    ensures found.Some? <==> exists chain :: IsPlainChain(answers, qname, chain)
    ensures found.Some? ==> exists chain ::
      && IsPlainChain(answers, qname, chain) && found.value.owner == chain[|chain| - 1]
      && (found.value.ttl.None? <==> |chain| == 1)
      && (forall r :: r in answers && r.data.Cname? && r.name in chain ==>
            found.value.ttl.Some? && found.value.ttl.value <= r.ttl)
      && (found.value.ttl.Some? ==>
            exists r :: r in answers && r.data.Cname? && r.name in chain && r.ttl == found.value.ttl.value)
  {
    if found.Some? {
      var chain :| EndsAt(answers, qname, chain, found.value);
      PlainChainMeaning(answers, qname, chain);
      forall r | r in answers && r.data.Cname? && r.name in chain
        ensures found.value.ttl.Some? && found.value.ttl.value <= r.ttl
      {
        assert r.ttl in AliasTtls(answers, chain);
      }
      if |chain| > 1 {
        assert AliasTo(answers, chain[0], chain[1]);
      }
    } else if chain :| IsPlainChain(answers, qname, chain) {
      PlainChainMeaning(answers, qname, chain);
      var least := SomeLeast(AliasTtls(answers, chain));
      var t := Terminal(Last(chain), least);
      assert EndsAt(answers, qname, chain, t);
      FinalOwnerOnce(answers, qname, found, Some(t));
    }
  }

  // What policy sees and what is cached

  function AddressOf(d: Data): Address
    requires IsAddress(d)
  {
    match d
    case A(v4) => V4(v4)
    case Aaaa(v6) => V6(v6)
  }

  /** The address records policy sees: those at the terminal owner, of either family, in order. */
  function Addresses(terminal: Option<Terminal>, qtype: QueryType, answers: seq<Record>): (r: seq<(Address, nat)>) {
    if answers == [] then []
    else
      var rest := Addresses(terminal, qtype, answers[..|answers| - 1]);
      var last := answers[|answers| - 1];
      if terminal.None? || qtype.AskOther? || last.name != terminal.value.owner || !IsAddress(last.data) then rest
      else rest + [(AddressOf(last.data), last.ttl)]
  }

  predicate PolicySees(t: Terminal, r: Record) {
    r.name == t.owner && IsAddress(r.data)
  }

  ghost function SeenAddresses(t: Terminal, answers: seq<Record>): set<Address> {
    set r | r in answers && PolicySees(t, r) :: AddressOf(r.data)
  }

  ghost function SeenTtls(t: Terminal, answers: seq<Record>): set<nat> {
    set r | r in answers && PolicySees(t, r) :: r.ttl
  }

  function SoaTtl(r: Record): nat
    requires r.data.Soa?
  {
    if r.ttl < r.data.minimum then r.ttl else r.data.minimum
  }

  ghost function SoaTtls(authorities: seq<Record>): set<nat> {
    set r | r in authorities && r.data.Soa? :: SoaTtl(r)
  }

  predicate OfFamily(qtype: QueryType, a: Address) {
    (qtype.AskA? && a.V4?) || (qtype.AskAaaa? && a.V6?)
  }

  ghost function ChainTtl(t: Terminal): set<nat> {
    if t.ttl.Some? then {t.ttl.value} else {}
  }

  /** All lifetimes the cached one is the least of. */
  ghost function Lifetimes(t: Terminal, m: Message): set<nat> {
    ChainTtl(t) + SeenTtls(t, m.answers) + if SeenAddresses(t, m.answers) == {} then SoaTtls(m.authorities) else {}
  }

  ghost predicate Cacheable(t: Terminal, qtype: QueryType, m: Message) {
    && !m.truncation && !qtype.AskOther? && !m.code.OtherCode?
    && (forall a :: a in SeenAddresses(t, m.answers) ==> m.code.NoError? && OfFamily(qtype, a))
    && |SeenAddresses(t, m.answers)| <= MAX_ADDRESSES
    && (SeenAddresses(t, m.answers) == {} ==> SoaTtls(m.authorities) != {})
    && 0 !in Lifetimes(t, m)
  }

  /** Positive with exactly the addresses seen, each once; negative only when there are none. */
  ghost predicate Lists(a: Answer, seen: set<Address>) {
    match a
    case Negative => seen == {}
    case Positive(addresses) => seen != {} && Distinct(addresses) && Elements(addresses) == seen
  }

  ghost predicate IsCacheAnswer(terminal: Option<Terminal>, qtype: QueryType, m: Message, r: Option<(Answer, nat)>) {
    if terminal.None? || !Cacheable(terminal.value, qtype, m) then r.None?
    else
      && r.Some?
      && Lists(r.value.0, SeenAddresses(terminal.value, m.answers))
      && r.value.1 > 0 && IsLeast(Lifetimes(terminal.value, m), Some(r.value.1))
  }

  lemma SameLifetimes(t: Terminal, m: Message, n: Message)
    requires SameRecords(m.answers, n.answers) && SameRecords(m.authorities, n.authorities)
    ensures SeenAddresses(t, m.answers) == SeenAddresses(t, n.answers) && Lifetimes(t, m) == Lifetimes(t, n)
    ensures SoaTtls(m.authorities) == SoaTtls(n.authorities)
  {
    assert SeenAddresses(t, m.answers) == SeenAddresses(t, n.answers);
    assert SeenTtls(t, m.answers) == SeenTtls(t, n.answers);
    assert SoaTtls(m.authorities) == SoaTtls(n.authorities);
  }

  /** Neither the order nor the repetition of records decides whether, for how long, or which addresses are cached. */
  lemma CacheIgnoresOrder(
      t: Option<Terminal>, qtype: QueryType, m: Message, n: Message, r: Option<(Answer, nat)>, s: Option<(Answer, nat)>)
    requires SameRecords(m.answers, n.answers) && SameRecords(m.authorities, n.authorities)
    requires m.truncation == n.truncation && m.code == n.code
    requires IsCacheAnswer(t, qtype, m, r) && IsCacheAnswer(t, qtype, n, s)
    ensures r.None? <==> s.None?
    ensures r.Some? ==> r.value.1 == s.value.1 && (r.value.0.Negative? <==> s.value.0.Negative?)
    ensures r.Some? && r.value.0.Positive? ==> Elements(r.value.0.addresses) == Elements(s.value.0.addresses)
  {
    if t.Some? {
      SameLifetimes(t.value, m, n);
    }
  }

  ghost function Firsts(s: seq<(Address, nat)>): set<Address> {
    set p | p in s :: p.0
  }

  ghost function Seconds(s: seq<(Address, nat)>): set<nat> {
    set p | p in s :: p.1
  }

  lemma PairsGrow(s: seq<(Address, nat)>, p: (Address, nat))
    ensures Firsts(s + [p]) == Firsts(s) + {p.0} && Seconds(s + [p]) == Seconds(s) + {p.1}
  {
    forall x ensures x in s + [p] <==> x in s || x == p { assert p == (s + [p])[|s|]; }
    forall a | a in Firsts(s) + {p.0} ensures a in Firsts(s + [p]) {
      if a in Firsts(s) {
        var x :| x in s && x.0 == a;
        assert x in s + [p];
      } else {
        assert p in s + [p];
      }
    }
    forall a | a in Seconds(s) + {p.1} ensures a in Seconds(s + [p]) {
      if a in Seconds(s) {
        var x :| x in s && x.1 == a;
        assert x in s + [p];
      } else {
        assert p in s + [p];
      }
    }
  }

  /** What policy iterates over is exactly what is seen. */
  lemma {:induction false} AddressesAreSeen(t: Terminal, qtype: QueryType, answers: seq<Record>)
    requires !qtype.AskOther?
    ensures Firsts(Addresses(Some(t), qtype, answers)) == SeenAddresses(t, answers)
    ensures Seconds(Addresses(Some(t), qtype, answers)) == SeenTtls(t, answers)
  {
    if answers != [] {
      var part, last := answers[..|answers| - 1], answers[|answers| - 1];
      AddressesAreSeen(t, qtype, part);
      forall x ensures x in answers <==> x in part || x == last { assert answers == part + [last]; }
      if PolicySees(t, last) {
        PairsGrow(Addresses(Some(t), qtype, part), (AddressOf(last.data), last.ttl));
        assert SeenAddresses(t, answers) == SeenAddresses(t, part) + {AddressOf(last.data)};
        assert SeenTtls(t, answers) == SeenTtls(t, part) + {last.ttl};
      } else {
        assert SeenAddresses(t, answers) == SeenAddresses(t, part);
        assert SeenTtls(t, answers) == SeenTtls(t, part);
      }
    }
  }

  /** What the collecting loop holds after some of the addresses. */
  ghost predicate Collected(part: seq<(Address, nat)>, qtype: QueryType, code: ResponseCode, addresses: seq<Address>) {
    && Distinct(addresses) && Elements(addresses) == Firsts(part)
    && forall a :: a in Firsts(part) ==> code.NoError? && OfFamily(qtype, a)
  }

  lemma CollectOneMore(
      part: seq<(Address, nat)>, p: (Address, nat), qtype: QueryType, code: ResponseCode, addresses: seq<Address>)
    requires Collected(part, qtype, code, addresses) && code.NoError? && OfFamily(qtype, p.0)
    ensures Collected(part + [p], qtype, code, if p.0 in addresses then addresses else addresses + [p.0])
  {
    PairsGrow(part, p);
    if p.0 !in addresses {
      ElementsGrow(addresses, p.0);
    } else {
      assert p.0 in Elements(addresses);
    }
  }

  lemma TtlOneMore(part: seq<(Address, nat)>, p: (Address, nat), before: set<nat>, least: Option<nat>)
    requires IsLeast(before + Seconds(part), least)
    ensures IsLeast(before + Seconds(part + [p]), Smaller(least, p.1))
  {
    PairsGrow(part, p);
    LeastGrows(before + Seconds(part), least, p.1);
    assert before + Seconds(part + [p]) == before + Seconds(part) + {p.1};
  }

  /** The collecting loop: distinct addresses in a fixed buffer, and the least lifetime; nothing if an address does not
      belong or there are too many. */
  method Collect(
      pairs: seq<(Address, nat)>, qtype: QueryType, code: ResponseCode, start: Option<nat>, ghost before: set<nat>)
    returns (ok: bool, addresses: seq<Address>, ttl: Option<nat>)
    requires IsLeast(before, start)
    ensures ok <==>
      && (forall a :: a in Firsts(pairs) ==> code.NoError? && OfFamily(qtype, a))
      && |Firsts(pairs)| <= MAX_ADDRESSES
    ensures ok ==> Distinct(addresses) && Elements(addresses) == Firsts(pairs) && IsLeast(before + Seconds(pairs), ttl)
  {
    var buffer := new Address[MAX_ADDRESSES](_ => V4(0));
    var count := 0;
    ttl := start;
    assert before + Seconds(pairs[..0]) == before;
    for i := 0 to |pairs|
      invariant count <= MAX_ADDRESSES && Collected(pairs[..i], qtype, code, buffer[..count])
      invariant IsLeast(before + Seconds(pairs[..i]), ttl)
    {
      var (address, recordTtl) := pairs[i];
      assert pairs[..i + 1] == pairs[..i] + [pairs[i]];
      if !code.NoError? || !OfFamily(qtype, address) {
        assert pairs[i] in pairs;
        assert address in Firsts(pairs);
        return false, [], None;
      }
      CollectOneMore(pairs[..i], pairs[i], qtype, code, buffer[..count]);
      TtlOneMore(pairs[..i], pairs[i], before, ttl);
      ttl := Smaller(ttl, recordTtl);
      if address !in buffer[..count] {
        if count == MAX_ADDRESSES {
          FirstsPart(pairs, i + 1);
          TooMany(buffer[..count] + [address], Firsts(pairs));
          return false, [], None;
        }
        ghost var was := buffer[..count];
        buffer[count] := address;
        assert buffer[..count + 1] == was + [address];
        count := count + 1;
      }
    }
    assert pairs[..|pairs|] == pairs;
    DistinctCard(buffer[..count]);
    return true, buffer[..count], ttl;
  }

  lemma FirstsPart(s: seq<(Address, nat)>, k: nat)
    requires k <= |s|
    ensures Firsts(s[..k]) <= Firsts(s)
  {
    forall a | a in Firsts(s[..k]) ensures a in Firsts(s) {
      var p :| p in s[..k] && p.0 == a;
      assert p in s;
    }
  }

  lemma ElementsGrow(s: seq<Address>, a: Address)
    requires Distinct(s) && a !in s
    ensures Distinct(s + [a]) && Elements(s + [a]) == Elements(s) + {a}
  {
    forall x ensures x in s + [a] <==> x in s || x == a { assert a == (s + [a])[|s|]; }
  }

  lemma TooMany(s: seq<Address>, all: set<Address>)
    requires Distinct(s) && |s| > MAX_ADDRESSES && Elements(s) <= all
    ensures |all| > MAX_ADDRESSES
  {
    DistinctCard(s);
    if Elements(s) != all { SmallerSubset(Elements(s), all); }
  }

  method LeastSoa(authorities: seq<Record>) returns (ttl: Option<nat>)
    ensures IsLeast(SoaTtls(authorities), ttl)
  {
    ttl := None;
    for i := 0 to |authorities|
      invariant IsLeast(SoaTtls(authorities[..i]), ttl)
    {
      var record := authorities[i];
      forall x ensures x in authorities[..i + 1] <==> x in authorities[..i] || x == record {
        assert authorities[..i + 1] == authorities[..i] + [record];
      }
      if record.data.Soa? {
        LeastGrows(SoaTtls(authorities[..i]), ttl, SoaTtl(record));
        assert SoaTtls(authorities[..i + 1]) == SoaTtls(authorities[..i]) + {SoaTtl(record)};
        ttl := Smaller(ttl, SoaTtl(record));
      } else {
        assert SoaTtls(authorities[..i + 1]) == SoaTtls(authorities[..i]);
      }
    }
    assert authorities[..|authorities|] == authorities;
  }

  lemma LeastOfBoth(a: set<nat>, x: Option<nat>, b: set<nat>, y: nat)
    requires IsLeast(a, x) && IsLeast(b, Some(y))
    ensures IsLeast(a + b, Smaller(x, y))
  {
  }

  lemma LeastIsThere(t: Terminal, m: Message, ttl: Option<nat>)
    requires SeenAddresses(t, m.answers) != {} && IsLeast(ChainTtl(t) + SeenTtls(t, m.answers), ttl)
    ensures ttl.Some? && IsLeast(Lifetimes(t, m), ttl)
  {
    var a :| a in SeenAddresses(t, m.answers);
    var r :| r in m.answers && PolicySees(t, r) && AddressOf(r.data) == a;
    assert r.ttl in SeenTtls(t, m.answers);
    assert Lifetimes(t, m) == ChainTtl(t) + SeenTtls(t, m.answers);
  }

  lemma ZeroIsLeast(t: Terminal, m: Message)
    requires IsLeast(ChainTtl(t) + SeenTtls(t, m.answers), Some(0))
    ensures 0 in Lifetimes(t, m)
  {
  }

  /** With no address seen, the least lifetime of the authorities' SOA records counts too. */
  method NegativeTtl(t: Terminal, m: Message, ttl: Option<nat>) returns (r: Option<nat>)
    requires SeenAddresses(t, m.answers) == {} && IsLeast(ChainTtl(t) + SeenTtls(t, m.answers), ttl)
    ensures r.Some? <==> SoaTtls(m.authorities) != {} && 0 !in Lifetimes(t, m)
    ensures r.Some? ==> r.value > 0 && IsLeast(Lifetimes(t, m), r)
  {
    var soa := LeastSoa(m.authorities);
    if soa.None? {
      return None;
    }
    LeastOfBoth(ChainTtl(t) + SeenTtls(t, m.answers), ttl, SoaTtls(m.authorities), soa.value);
    assert Lifetimes(t, m) == ChainTtl(t) + SeenTtls(t, m.answers) + SoaTtls(m.authorities);
    r := Smaller(ttl, soa.value);
    if r == Some(0) {
      return None;
    }
  }

  /** What is cached, if anything. */
  method CacheAnswer(terminal: Option<Terminal>, qtype: QueryType, m: Message) returns (r: Option<(Answer, nat)>)
    ensures IsCacheAnswer(terminal, qtype, m, r)
  {
    if terminal.None? {
      return None;
    }
    var t := terminal.value;
    if m.truncation || qtype.AskOther? || m.code.OtherCode? {
      return None;
    }
    r := CacheSeen(t, qtype, m);
  }

  /** Every address is of the asked family, none comes with an error code, and they fit. */
  ghost predicate Belong(seen: set<Address>, qtype: QueryType, code: ResponseCode) {
    (forall a :: a in seen ==> code.NoError? && OfFamily(qtype, a)) && |seen| <= MAX_ADDRESSES
  }

  lemma PositiveCached(t: Terminal, qtype: QueryType, m: Message, addresses: seq<Address>, ttl: Option<nat>)
    requires !m.truncation && !qtype.AskOther? && !m.code.OtherCode?
    requires Belong(SeenAddresses(t, m.answers), qtype, m.code) && addresses != []
    requires Distinct(addresses) && Elements(addresses) == SeenAddresses(t, m.answers)
    requires IsLeast(ChainTtl(t) + SeenTtls(t, m.answers), ttl) && ttl != Some(0)
    ensures ttl.Some? && IsCacheAnswer(Some(t), qtype, m, Some((Positive(addresses), ttl.value)))
  {
    assert addresses[0] in Elements(addresses);
    LeastIsThere(t, m, ttl);
  }

  lemma NegativeCached(t: Terminal, qtype: QueryType, m: Message, ttl: Option<nat>)
    requires !m.truncation && !qtype.AskOther? && !m.code.OtherCode? && SeenAddresses(t, m.answers) == {}
    requires ttl.Some? <==> SoaTtls(m.authorities) != {} && 0 !in Lifetimes(t, m)
    requires ttl.Some? ==> ttl.value > 0 && IsLeast(Lifetimes(t, m), ttl)
    ensures IsCacheAnswer(Some(t), qtype, m, if ttl.Some? then Some((Negative, ttl.value)) else None)
  {
  }

  method CacheSeen(t: Terminal, qtype: QueryType, m: Message) returns (r: Option<(Answer, nat)>)
    requires !m.truncation && !qtype.AskOther? && !m.code.OtherCode?
    ensures IsCacheAnswer(Some(t), qtype, m, r)
  {
    AddressesAreSeen(t, qtype, m.answers);
    var ok, addresses, ttl := Collect(Addresses(Some(t), qtype, m.answers), qtype, m.code, t.ttl, ChainTtl(t));
    assert ok <==> Belong(SeenAddresses(t, m.answers), qtype, m.code);
    if !ok {
      return None;
    }
    if ttl == Some(0) {
      ZeroIsLeast(t, m);
      return None;
    }
    if |addresses| == 0 {
      assert Elements(addresses) == {};
      var least := NegativeTtl(t, m, ttl);
      NegativeCached(t, qtype, m, least);
      return if least.Some? then Some((Negative, least.value)) else None;
    }
    PositiveCached(t, qtype, m, addresses, ttl);
    return Some((Positive(addresses), ttl.value));
  }

  // What caching means, record by record

  /** Every record that bears on the answer outlives it: the aliases on the way, the addresses at the owner, or, when
      there are none, the authority's start record and its minimum. */
  ghost predicate OutlivedBy(t: Terminal, m: Message, d: nat) {
    && (t.ttl.Some? ==> d <= t.ttl.value)
    && (forall r :: r in m.answers && r.name == t.owner && (r.data.A? || r.data.Aaaa?) ==> d <= r.ttl)
    && (NoAddressAt(t, m) ==>
          forall r :: r in m.authorities && r.data.Soa? ==> d <= r.ttl && d <= r.data.minimum)
  }

  ghost predicate NoAddressAt(t: Terminal, m: Message) {
    forall r :: r in m.answers && r.name == t.owner ==> !r.data.A? && !r.data.Aaaa?
  }

  ghost predicate HasStart(m: Message) {
    exists r :: r in m.authorities && r.data.Soa?
  }

  lemma LifetimesOutlive(t: Terminal, m: Message, d: nat)
    ensures OutlivedBy(t, m, d) <==> forall u :: u in Lifetimes(t, m) ==> d <= u
    ensures NoAddressAt(t, m) <==> SeenAddresses(t, m.answers) == {}
    ensures HasStart(m) <==> SoaTtls(m.authorities) != {}
  {
    if NoAddressAt(t, m) {
      assert SeenAddresses(t, m.answers) == {};
    } else {
      var r :| r in m.answers && r.name == t.owner && (r.data.A? || r.data.Aaaa?);
      assert PolicySees(t, r) && AddressOf(r.data) in SeenAddresses(t, m.answers);
    }
    if HasStart(m) {
      var r :| r in m.authorities && r.data.Soa?;
      assert SoaTtl(r) in SoaTtls(m.authorities);
    }
    if forall u :: u in Lifetimes(t, m) ==> d <= u {
      forall r | r in m.answers && r.name == t.owner && (r.data.A? || r.data.Aaaa?) ensures d <= r.ttl {
        assert r.ttl in SeenTtls(t, m.answers);
      }
      if NoAddressAt(t, m) {
        forall r | r in m.authorities && r.data.Soa? ensures d <= r.ttl && d <= r.data.minimum {
          assert SoaTtl(r) in SoaTtls(m.authorities);
        }
      }
    }
  }

  /** The addresses cached are those of the owner's records; without any, the answer is negative. */
  ghost predicate ListsRecords(t: Terminal, m: Message, a: Answer) {
    match a
    case Negative => NoAddressAt(t, m)
    case Positive(addresses) =>
      && addresses != [] && Distinct(addresses)
      && (forall v :: V4(v) in addresses <==> exists r :: r in m.answers && r.name == t.owner && r.data == A(v))
      && (forall v :: V6(v) in addresses <==> exists r :: r in m.answers && r.name == t.owner && r.data == Aaaa(v))
  }

  lemma ListedRecords(t: Terminal, m: Message, a: Answer)
    requires Lists(a, SeenAddresses(t, m.answers))
    ensures ListsRecords(t, m, a)
  {
    LifetimesOutlive(t, m, 0);
    if a.Positive? {
      forall v ensures V4(v) in a.addresses <==> exists r :: r in m.answers && r.name == t.owner && r.data == A(v) {
        assert V4(v) in a.addresses <==> V4(v) in Elements(a.addresses);
        if r :| r in m.answers && r.name == t.owner && r.data == A(v) {
          assert PolicySees(t, r) && AddressOf(r.data) == V4(v);
        }
      }
      forall v ensures V6(v) in a.addresses <==> exists r :: r in m.answers && r.name == t.owner && r.data == Aaaa(v) {
        assert V6(v) in a.addresses <==> V6(v) in Elements(a.addresses);
        if r :| r in m.answers && r.name == t.owner && r.data == Aaaa(v) {
          assert PolicySees(t, r) && AddressOf(r.data) == V6(v);
        }
      }
    }
  }

  /** No record of the wrong family, and none at all beside an error code. */
  ghost predicate FamilyFits(t: Terminal, qtype: QueryType, m: Message) {
    forall r :: r in m.answers && r.name == t.owner ==>
      && (r.data.A? ==> m.code.NoError? && qtype.AskA?)
      && (r.data.Aaaa? ==> m.code.NoError? && qtype.AskAaaa?)
  }

  lemma FamilyFitsExactly(t: Terminal, qtype: QueryType, m: Message)
    ensures FamilyFits(t, qtype, m)
      <==> forall a :: a in SeenAddresses(t, m.answers) ==> m.code.NoError? && OfFamily(qtype, a)
  {
    if forall a :: a in SeenAddresses(t, m.answers) ==> m.code.NoError? && OfFamily(qtype, a) {
      forall r | r in m.answers && r.name == t.owner
        ensures (r.data.A? ==> m.code.NoError? && qtype.AskA?) && (r.data.Aaaa? ==> m.code.NoError? && qtype.AskAaaa?)
      {
        if IsAddress(r.data) {
          assert PolicySees(t, r) && AddressOf(r.data) in SeenAddresses(t, m.answers);
        }
      }
    }
  }

  /** An answer is cached exactly if it is whole, asks for addresses, has a code that says yes or no, only fitting
      addresses and at most 16 of them, a start record if it has none, and nothing that expires at once; it is kept as
      long as all its records live, and no longer. */
  lemma CachedMeaning(t: Terminal, qtype: QueryType, m: Message, r: Option<(Answer, nat)>)
    requires IsCacheAnswer(Some(t), qtype, m, r)
    ensures r.Some? <==>
      && !m.truncation && (qtype == AskA || qtype == AskAaaa) && (m.code == NoError || m.code == NXDomain)
      && FamilyFits(t, qtype, m) && |SeenAddresses(t, m.answers)| <= 16
      && (NoAddressAt(t, m) ==> HasStart(m)) && OutlivedBy(t, m, 1)
    ensures r.Some? ==> ListsRecords(t, m, r.value.0)
    ensures r.Some? ==> forall d: nat :: OutlivedBy(t, m, d) <==> d <= r.value.1
  {
    LifetimesOutlive(t, m, 1);
    FamilyFitsExactly(t, qtype, m);
    assert 0 !in Lifetimes(t, m) <==> OutlivedBy(t, m, 1) by {
      if 0 in Lifetimes(t, m) { assert !OutlivedBy(t, m, 1); }
    }
    if r.Some? {
      ListedRecords(t, m, r.value.0);
      forall d: nat ensures OutlivedBy(t, m, d) <==> d <= r.value.1 { LifetimesOutlive(t, m, d); }
    }
  }
}
