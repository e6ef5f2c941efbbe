/** The input-side index over match sets (crates/ferrum2-rule/src/candidate.rs, `MatchCandidateIndex`). */
module MatchIndex {
  import opened Prelude
  import opened Orders
  import opened SparseIndex
  import opened MatchSets

  /** One match set added under a candidate, with the categories taken from it. */
  datatype Added = Added(candidate: nat, matchSet: MatchSet, categories: set<Category>)

  type NetKey = (nat, seq<bool>)

  function CharLe(a: char, b: char): bool { a as int <= b as int }

  function BoolLe(a: bool, b: bool): bool { !a || b }

  function StringLe(): (string, string) -> bool { BySeq(CharLe) }

  function NetLe(): (NetKey, NetKey) -> bool {
    (a: NetKey, b: NetKey) => if a.0 == b.0 then SeqLe(BoolLe, a.1, b.1) else a.0 < b.0
  }

  lemma KeyOrders()
    ensures TotalOrder(StringLe())
    ensures TotalOrder(NetLe())
  {
    SeqOrder(CharLe);
    SeqOrder(BoolLe);
    var bits := BySeq(BoolLe);
    forall a: NetKey, b: NetKey ensures NetLe()(a, b) || NetLe()(b, a) {
      assert bits(a.1, b.1) || bits(b.1, a.1);
    }
    forall a: NetKey, b: NetKey | NetLe()(a, b) && NetLe()(b, a) ensures a == b {
      assert bits(a.1, b.1) && bits(b.1, a.1);
    }
    forall a: NetKey, b: NetKey, c: NetKey | NetLe()(a, b) && NetLe()(b, c) ensures NetLe()(a, c) {
      if a.0 == b.0 == c.0 {
        assert bits(a.1, b.1) && bits(b.1, c.1);
        assert bits(a.1, c.1);
      }
    }
  }

  // The keys each category takes from a match set

  function ExactKeys(a: Added): seq<string> { if Exact in a.categories then a.matchSet.exact else [] }

  function SuffixKeys(a: Added): seq<string> { if Suffix in a.categories then a.matchSet.suffix else [] }

  function KeywordKeys(a: Added): seq<string> { if Keyword in a.categories then a.matchSet.keywords else [] }

  function Net4Keys(a: Added): seq<NetKey> { if Ip in a.categories then Nets4(a.matchSet.cidrs) else [] }

  function Net6Keys(a: Added): seq<NetKey> { if Ip in a.categories then Nets6(a.matchSet.cidrs) else [] }

  function Nets4(cidrs: seq<Cidr>): (r: seq<NetKey>)
    ensures forall k :: k in r <==> exists n :: n in cidrs && n.Net4? && k == (n.length, n.network4)
  {
    if cidrs == [] then []
    else
      var last := cidrs[|cidrs| - 1];
      assert cidrs == cidrs[..|cidrs| - 1] + [last];
      Nets4(cidrs[..|cidrs| - 1]) + if last.Net4? then [(last.length, last.network4)] else []
  }

  function Nets6(cidrs: seq<Cidr>): (r: seq<NetKey>)
    ensures forall k :: k in r <==> exists n :: n in cidrs && n.Net6? && k == (n.length, n.network6)
  {
    if cidrs == [] then []
    else
      var last := cidrs[|cidrs| - 1];
      assert cidrs == cidrs[..|cidrs| - 1] + [last];
      Nets6(cidrs[..|cidrs| - 1]) + if last.Net6? then [(last.length, last.network6)] else []
  }

  /** The entries one category has after all additions. */
  ghost function Collected<K(!new)>(added: seq<Added>, keys: Added -> seq<K>): seq<(K, nat)> {
    if added == [] then []
    else
      var last := added[|added| - 1];
      Collected(added[..|added| - 1], keys) + Tagged(keys(last), last.candidate)
  }

  lemma CollectedOneMore<K(!new)>(added: seq<Added>, last: Added, keys: Added -> seq<K>)
    ensures Collected(added + [last], keys) == Collected(added, keys) + Tagged(keys(last), last.candidate)
  {
    assert (added + [last])[..|added|] == added;
  }

  /** Some category takes at least one key from the match set. */
  predicate TakesKeys(a: Added) {
    ExactKeys(a) != [] || SuffixKeys(a) != [] || KeywordKeys(a) != [] || Net4Keys(a) != [] || Net6Keys(a) != []
  }

  ghost predicate SomeAddedHas<K(!new)>(added: seq<Added>, keys: Added -> seq<K>, wanted: seq<K>, c: nat) {
    exists a :: a in added && a.candidate == c && exists k :: k in wanted && k in keys(a)
  }

  lemma {:induction false} CollectedOnAny<K(!new)>(added: seq<Added>, keys: Added -> seq<K>, wanted: seq<K>, c: nat)
    ensures OnAny(Collected(added, keys), wanted, c) <==> SomeAddedHas(added, keys, wanted, c)
  {
    if added != [] {
      var last := added[|added| - 1];
      var rest := added[..|added| - 1];
      assert added == rest + [last];
      CollectedOnAny(rest, keys, wanted, c);
      TaggedOnAny(keys(last), last.candidate, wanted, c);
      OnAnyBoth(Collected(rest, keys), Tagged(keys(last), last.candidate), wanted, c);
      assert SomeAddedHas(rest, keys, wanted, c) ==> SomeAddedHas(added, keys, wanted, c);
    }
  }

  datatype MatchCandidateIndex = MatchCandidateIndex(
    exact: SparseValueIndex<string>,
    suffix: SparseValueIndex<string>,
    keyword: SparseValueIndex<string>,
    v4: SparseValueIndex<NetKey>,
    v6: SparseValueIndex<NetKey>)

  ghost predicate IsMatchIndex(index: MatchCandidateIndex, added: seq<Added>) {
    && (forall a :: a in added ==> WellFormed(a.matchSet))
    && IsIndexOf(index.exact, Collected(added, ExactKeys), StringLe())
    && IsIndexOf(index.suffix, Collected(added, SuffixKeys), StringLe())
    && IsIndexOf(index.keyword, Collected(added, KeywordKeys), StringLe())
    && IsIndexOf(index.v4, Collected(added, Net4Keys), NetLe())
    && IsIndexOf(index.v6, Collected(added, Net6Keys), NetLe())
  }

  /** The candidates of the added match sets that the input satisfies. */
  ghost function MatchCandidates(added: seq<Added>, domain: Option<string>, address: Option<IpAddr>): set<nat> {
    set a | a in added && Matches(a.matchSet, a.categories, domain, address) :: a.candidate
  }

  // Keyword limits (crates/ferrum2-rule/src/keyword.rs)

  const MAX_KEYWORD: nat := 255
  const MAX_KEYWORD_BYTES: nat := 2 * 1024 * 1024

  /** The different keywords added. */
  ghost function Keywords(added: seq<Added>): set<string> {
    set e | e in Collected(added, KeywordKeys) :: e.0
  }

  ghost function LengthSum(s: set<string>): nat {
    if s == {} then 0 else var x :| x in s; |x| + LengthSum(s - {x})
  }

  /** No keyword is too long, nor are the different ones together. */
  ghost predicate KeywordsAdmitted(added: seq<Added>) {
    (forall k :: k in Keywords(added) ==> |k| <= MAX_KEYWORD) && LengthSum(Keywords(added)) <= MAX_KEYWORD_BYTES
  }

  lemma {:induction false} LengthSumWithout(s: set<string>, x: string)
    requires x in s
    ensures LengthSum(s) == |x| + LengthSum(s - {x})
  {
    var y :| y in s && LengthSum(s) == |y| + LengthSum(s - {y});
    if y != x {
      LengthSumWithout(s - {y}, x);
      LengthSumWithout(s - {x}, y);
      assert s - {y} - {x} == s - {x} - {y};
    }
  }

  ghost function PostedKeywords(postings: seq<Posting<string>>): set<string> {
    set p | p in postings :: p.key
  }

  lemma FirstKeyword(postings: seq<Posting<string>>)
    requires KeysAscend(postings, StringLe()) && postings != []
    ensures postings[0].key in PostedKeywords(postings)
    ensures PostedKeywords(postings) - {postings[0].key} == PostedKeywords(postings[1..])
  {
    var all, rest, first := PostedKeywords(postings), PostedKeywords(postings[1..]), postings[0].key;
    assert postings[0] in postings;
    forall k ensures k in rest <==> k in all && k != first {
      if k in rest {
        var p :| p in postings[1..] && p.key == k;
        var i :| 0 <= i < |postings[1..]| && postings[1..][i] == p;
        assert postings[i + 1] in postings && postings[0].key != postings[i + 1].key;
      }
      if k in all && k != first {
        var p :| p in postings && p.key == k;
        assert p in postings[1..];
      }
    }
  }

  lemma {:induction false} KeywordBytesSum(postings: seq<Posting<string>>)
    requires KeysAscend(postings, StringLe())
    ensures KeywordBytes(postings) == LengthSum(PostedKeywords(postings))
  {
    if postings == [] {
      assert PostedKeywords(postings) == {};
    } else {
      assert KeysAscend(postings[1..], StringLe());
      KeywordBytesSum(postings[1..]);
      FirstKeyword(postings);
      LengthSumWithout(PostedKeywords(postings), postings[0].key);
    }
  }

  /** The limits met by the postings are those on the different keywords added. */
  lemma FitIsAdmitted(index: SparseValueIndex<string>, added: seq<Added>)
    requires IsIndexOf(index, Collected(added, KeywordKeys), StringLe())
    ensures KeywordsFit(index.postings) <==> KeywordsAdmitted(added)
  {
    var entries := Collected(added, KeywordKeys);
    forall k ensures k in PostedKeywords(index.postings) <==> k in Keywords(added) {
      if k in Keywords(added) {
        var e :| e in entries && e.0 == k;
        assert HasKey(index.postings, e.0);
      }
      if k in PostedKeywords(index.postings) {
        var p :| p in index.postings && p.key == k;
        assert IsPosting(entries, p) && p.candidates[0] in p.candidates;
        assert (k, p.candidates[0]) in entries && (k, p.candidates[0]).0 == k;
      }
    }
    assert PostedKeywords(index.postings) == Keywords(added);
    KeywordBytesSum(index.postings);
  }

  function KeywordBytes(postings: seq<Posting<string>>): nat {
    if postings == [] then 0 else |postings[0].key| + KeywordBytes(postings[1..])
  }

  predicate KeywordsFit(postings: seq<Posting<string>>) {
    && (forall p :: p in postings ==> |p.key| <= MAX_KEYWORD)
    && KeywordBytes(postings) <= MAX_KEYWORD_BYTES
  }

  ghost predicate EntriesAre(
      added: seq<Added>, exact: seq<(string, nat)>, suffix: seq<(string, nat)>, keyword: seq<(string, nat)>,
      v4: seq<(NetKey, nat)>, v6: seq<(NetKey, nat)>)
  {
    && exact == Collected(added, ExactKeys)
    && suffix == Collected(added, SuffixKeys)
    && keyword == Collected(added, KeywordKeys)
    && v4 == Collected(added, Net4Keys)
    && v6 == Collected(added, Net6Keys)
  }

  lemma EntriesOneMore(
      added: seq<Added>, last: Added, exact: seq<(string, nat)>, suffix: seq<(string, nat)>,
      keyword: seq<(string, nat)>, v4: seq<(NetKey, nat)>, v6: seq<(NetKey, nat)>)
    requires EntriesAre(added, exact, suffix, keyword, v4, v6)
    ensures EntriesAre(
      added + [last],
      exact + Tagged(ExactKeys(last), last.candidate),
      suffix + Tagged(SuffixKeys(last), last.candidate),
      keyword + Tagged(KeywordKeys(last), last.candidate),
      v4 + Tagged(Net4Keys(last), last.candidate),
      v6 + Tagged(Net6Keys(last), last.candidate))
  {
    CollectedOneMore(added, last, ExactKeys);
    CollectedOneMore(added, last, SuffixKeys);
    CollectedOneMore(added, last, KeywordKeys);
    CollectedOneMore(added, last, Net4Keys);
    CollectedOneMore(added, last, Net6Keys);
  }

  class MatchCandidateIndexBuilder {
    var exact: SparseValueIndexBuilder<string>
    var suffix: SparseValueIndexBuilder<string>
    var keyword: SparseValueIndexBuilder<string>
    var v4: SparseValueIndexBuilder<NetKey>
    var v6: SparseValueIndexBuilder<NetKey>
    /** Everything added so far. */
    ghost var added: seq<Added>

    ghost predicate Valid()
      reads this
    {
      && (forall a :: a in added ==> WellFormed(a.matchSet))
      && EntriesAre(added, exact.entries, suffix.entries, keyword.entries, v4.entries, v6.entries)
    }

    constructor ()
      ensures Valid() && added == []
    {
      exact, suffix, keyword := SparseValueIndexBuilder([]), SparseValueIndexBuilder([]), SparseValueIndexBuilder([]);
      v4, v6 := SparseValueIndexBuilder([]), SparseValueIndexBuilder([]);
      added := [];
    }

    /** A failed addition is abandoned with its builder, so only success is described. */
    method TryAddMatchSet(candidate: nat, matchSet: MatchSet, categories: set<Category>) returns (r: Result<()>)
      requires Valid() && WellFormed(matchSet)
      modifies this
      ensures r.Ok? ==> Valid() && added == old(added) + [Added(candidate, matchSet, categories)]
      ensures r.Err? <==> candidate > U32_MAX && TakesKeys(Added(candidate, matchSet, categories))
      ensures r.Err? ==> r.error == IndexOverflow
    {
      var last := Added(candidate, matchSet, categories);
      var exact' := AddAll(exact, ExactKeys(last), candidate);
      if exact'.Err? { return Err(exact'.error); }
      var suffix' := AddAll(suffix, SuffixKeys(last), candidate);
      if suffix'.Err? { return Err(suffix'.error); }
      var keyword' := AddAll(keyword, KeywordKeys(last), candidate);
      if keyword'.Err? { return Err(keyword'.error); }
      var v4' := AddAll(v4, Net4Keys(last), candidate);
      if v4'.Err? { return Err(v4'.error); }
      var v6' := AddAll(v6, Net6Keys(last), candidate);
      if v6'.Err? { return Err(v6'.error); }
      EntriesOneMore(added, last, exact.entries, suffix.entries, keyword.entries, v4.entries, v6.entries);
      exact, suffix, keyword, v4, v6 := exact'.value, suffix'.value, keyword'.value, v4'.value, v6'.value;
      added := added + [last];
      r := Ok(());
    }

    method Finish() returns (r: Result<MatchCandidateIndex>)
      requires Valid()
      ensures r.Ok? <==> KeywordsAdmitted(added)
      ensures r.Ok? ==> IsMatchIndex(r.value, added)
      ensures r.Err? ==> r.error == ResourceLimit
    {
      KeyOrders();
      var exact' := Build(exact, StringLe());
      var suffix' := Build(suffix, StringLe());
      var keyword' := Build(keyword, StringLe());
      FitIsAdmitted(keyword', added);
      if !KeywordsFit(keyword'.postings) {
        return Err(ResourceLimit);
      }
      var v4' := Build(v4, NetLe());
      var v6' := Build(v6, NetLe());
      r := Ok(MatchCandidateIndex(exact', suffix', keyword', v4', v6'));
    }
  }

  // Visiting

  /** Probes the label suffixes of the name. */
  method VisitSuffixes(index: SparseValueIndex<string>, domain: string, ghost entries: seq<(string, nat)>)
      returns (lists: seq<seq<nat>>, ghost held: set<nat>)
    requires TotalOrder(StringLe()) && IsIndexOf(index, entries, StringLe())
    ensures Holds(lists, held)
    ensures forall c: nat :: c in held <==> OnAny(entries, LabelSuffixes(domain), c)
    ensures forall c: nat :: InSome(lists, c) <==> OnAny(entries, LabelSuffixes(domain), c)
    ensures lists == ListsOf(index, LabelSuffixes(domain))
  {
    var suffix := domain;
    ghost var whole := LabelSuffixes(domain);
    ghost var walked: seq<string> := [];
    ghost var rest := whole;
    lists, held := [], {};
    var done := false;
    while !done
      invariant whole == walked + rest
      invariant rest == if done then [] else LabelSuffixes(suffix)
      invariant Visited(index, entries, walked, lists, held)
      decreases !done, |suffix|
    {
      lists, held := VisitNext(index, suffix, StringLe(), entries, walked, lists, held);
      SuffixStep(whole, walked, suffix);
      walked, rest := walked + [suffix], After(suffix);
      FirstDotIs(suffix);
      var boundary := FirstDot(suffix);
      match boundary {
        case None =>
          done := true;
        case Some(dot) =>
          suffix := suffix[dot + 1..];
      }
    }
    assert walked == whole;
  }

  /** What is still to be probed after a suffix. */
  ghost function After(suffix: string): seq<string> {
    match FirstDot(suffix)
    case None => []
    case Some(dot) => FirstDotIs(suffix); LabelSuffixes(suffix[dot + 1..])
  }

  lemma SuffixStep(whole: seq<string>, walked: seq<string>, suffix: string)
    requires whole == walked + LabelSuffixes(suffix)
    ensures whole == (walked + [suffix]) + After(suffix)
  {
    var after := After(suffix);
    assert LabelSuffixes(suffix) == [suffix] + after;
    assert walked + ([suffix] + after) == (walked + [suffix]) + after;
  }

  /** The keys of the postings with an occurrence that ends before position `end`. */
  ghost predicate SeenBefore(domain: string, end: nat, keyword: string) {
    exists e :: 0 <= e < end && EndsAt(domain, e, keyword)
  }

  /** The lists of the keywords that end at one position. */
  function ListsEndingAt(postings: seq<Posting<string>>, domain: string, end: nat): seq<seq<nat>> {
    if postings == [] then []
    else
      var last := postings[|postings| - 1];
      ListsEndingAt(postings[..|postings| - 1], domain, end)
      + if EndsAt(domain, end, last.key) then [last.candidates] else []
  }

  /** A keyword is visited once for each place it occurs at. */
  function KeywordLists(postings: seq<Posting<string>>, domain: string, upTo: nat): seq<seq<nat>> {
    if upTo == 0 then [] else KeywordLists(postings, domain, upTo - 1) + ListsEndingAt(postings, domain, upTo - 1)
  }

  /** Overlapping search: every keyword at every position where it ends. */
  method VisitKeywords(index: SparseValueIndex<string>, domain: string, ghost entries: seq<(string, nat)>)
      returns (lists: seq<seq<nat>>, ghost held: set<nat>)
    requires IsIndexOf(index, entries, StringLe())
    ensures Holds(lists, held)
    ensures forall c: nat :: c in held <==> exists k :: (k, c) in entries && Occurs(domain, k)
    ensures forall c: nat :: InSome(lists, c) <==> exists k :: (k, c) in entries && Occurs(domain, k)
    ensures lists == KeywordLists(index.postings, domain, |domain| + 1)
  {
    lists, held := [], {};
    var end := 0;
    while end <= |domain|
      invariant 0 <= end <= |domain| + 1
      invariant SeenUpTo(index.postings, domain, end, lists, held)
    {
      var visited;
      ghost var more;
      visited, more := VisitKeywordsAt(index, domain, end, entries);
      SeenOneMore(index.postings, domain, end, lists, held, visited, more);
      lists, held := lists + visited, held + more;
      end := end + 1;
    }
    forall c: nat ensures c in held <==> exists k :: (k, c) in entries && Occurs(domain, k) {
      SeenIsOccurs(index, entries, domain, c);
    }
  }

  ghost predicate SeenUpTo(
      postings: seq<Posting<string>>, domain: string, end: nat, lists: seq<seq<nat>>, held: set<nat>)
  {
    && Holds(lists, held) && lists == KeywordLists(postings, domain, end)
    && forall c: nat :: c in held <==> SomeSeen(postings, domain, end, c)
  }

  ghost predicate EndingSeen(
      postings: seq<Posting<string>>, domain: string, end: nat, lists: seq<seq<nat>>, held: set<nat>)
  {
    && Holds(lists, held) && lists == ListsEndingAt(postings, domain, end)
    && forall c: nat :: c in held <==> SomeEndsAt(postings, domain, end, c)
  }

  ghost predicate SomeSeen(postings: seq<Posting<string>>, domain: string, end: nat, c: nat) {
    exists p :: p in postings && SeenBefore(domain, end, p.key) && c in p.candidates
  }

  ghost predicate SomeEndsAt(postings: seq<Posting<string>>, domain: string, end: nat, c: nat) {
    exists p :: p in postings && EndsAt(domain, end, p.key) && c in p.candidates
  }

  lemma SeenOneMore(postings: seq<Posting<string>>, domain: string, end: nat, lists: seq<seq<nat>>, held: set<nat>,
                    visited: seq<seq<nat>>, more: set<nat>)
    requires SeenUpTo(postings, domain, end, lists, held) && EndingSeen(postings, domain, end, visited, more)
    ensures SeenUpTo(postings, domain, end + 1, lists + visited, held + more)
  {
    HoldsBoth(lists, held, visited, more);
    forall c: nat ensures c in held + more <==> SomeSeen(postings, domain, end + 1, c) {
      assert forall k: string :: SeenBefore(domain, end + 1, k) <==>
        SeenBefore(domain, end, k) || EndsAt(domain, end, k);
    }
  }

  lemma SeenIsOccurs(index: SparseValueIndex<string>, entries: seq<(string, nat)>, domain: string, c: nat)
    requires IsIndexOf(index, entries, StringLe())
    ensures SomeSeen(index.postings, domain, |domain| + 1, c) <==> exists k :: (k, c) in entries && Occurs(domain, k)
  {
    assert forall k: string :: SeenBefore(domain, |domain| + 1, k) <==> Occurs(domain, k);
    if SomeSeen(index.postings, domain, |domain| + 1, c) {
      var p :| p in index.postings && SeenBefore(domain, |domain| + 1, p.key) && c in p.candidates;
      assert IsPosting(entries, p);
      assert (p.key, c) in entries && Occurs(domain, p.key);
    }
    if k :| (k, c) in entries && Occurs(domain, k) {
      assert HasKey(index.postings, (k, c).0);
      var p :| p in index.postings && p.key == k;
      assert IsPosting(entries, p);
    }
  }

  /** The keywords that end at one position. */
  method VisitKeywordsAt(index: SparseValueIndex<string>, domain: string, end: nat, ghost entries: seq<(string, nat)>)
      returns (lists: seq<seq<nat>>, ghost held: set<nat>)
    requires IsIndexOf(index, entries, StringLe())
    ensures EndingSeen(index.postings, domain, end, lists, held)
  {
    var postings := index.postings;
    lists, held := [], {};
    var k := 0;
    while k < |postings|
      invariant 0 <= k <= |postings|
      invariant EndingSeen(postings[..k], domain, end, lists, held)
    {
      assert IsPosting(entries, postings[k]);
      EndingSeenOneMore(postings, k, domain, end, lists, held);
      if EndsAt(domain, end, postings[k].key) {
        lists, held := lists + [postings[k].candidates], held + set c | c in postings[k].candidates;
      }
      k := k + 1;
    }
    assert postings[..k] == postings;
  }

  lemma OneList(l: seq<nat>)
    requires StrictlySorted(l, NatLe)
    ensures Holds([l], set c | c in l)
  {
    assert l in [l];
  }

  lemma EndingSeenOneMore(
      postings: seq<Posting<string>>, k: nat, domain: string, end: nat, lists: seq<seq<nat>>, held: set<nat>)
    requires k < |postings| && StrictlySorted(postings[k].candidates, NatLe)
    requires EndingSeen(postings[..k], domain, end, lists, held)
    ensures var p := postings[k];
      if EndsAt(domain, end, p.key) then
        EndingSeen(postings[..k + 1], domain, end, lists + [p.candidates], held + set c | c in p.candidates)
      else EndingSeen(postings[..k + 1], domain, end, lists, held)
  {
    var p := postings[k];
    assert postings[..k + 1] == postings[..k] + [p] && postings[..k + 1][..k] == postings[..k];
    OneList(p.candidates);
    HoldsBoth(lists, held, [p.candidates], set c | c in p.candidates);
    forall c: nat ensures SomeEndsAt(postings[..k + 1], domain, end, c) <==>
      SomeEndsAt(postings[..k], domain, end, c) || (EndsAt(domain, end, p.key) && c in p.candidates)
    {
    }
  }

  /** The key probed for each prefix length. */
  function ProbeKeys(bits: seq<bool>, upTo: nat): (r: seq<NetKey>)
    requires upTo <= |bits| + 1
    ensures |r| == upTo && forall l :: 0 <= l < upTo ==> r[l] == (l, And(bits, Mask(|bits|, l)))
  {
    seq(upTo, l requires 0 <= l < upTo => (l, And(bits, Mask(|bits|, l))))
  }

  /** One probe for each prefix length, shortest first. */
  method VisitPrefixes(index: SparseValueIndex<NetKey>, bits: seq<bool>, ghost entries: seq<(NetKey, nat)>)
      returns (lists: seq<seq<nat>>, ghost held: set<nat>)
    requires TotalOrder(NetLe()) && IsIndexOf(index, entries, NetLe())
    ensures Holds(lists, held)
    ensures forall c: nat :: c in held <==> OnAny(entries, ProbeKeys(bits, |bits| + 1), c)
    ensures forall c: nat :: InSome(lists, c) <==> OnAny(entries, ProbeKeys(bits, |bits| + 1), c)
    ensures lists == ListsOf(index, ProbeKeys(bits, |bits| + 1))
  {
    lists, held := [], {};
    var length := 0;
    while length <= |bits|
      invariant 0 <= length <= |bits| + 1
      invariant Visited(index, entries, ProbeKeys(bits, length), lists, held)
    {
      var key: NetKey := (length, And(bits, Mask(|bits|, length)));
      lists, held := VisitNext(index, key, NetLe(), entries, ProbeKeys(bits, length), lists, held);
      assert ProbeKeys(bits, length + 1) == ProbeKeys(bits, length) + [key];
      length := length + 1;
    }
  }

  /** A probe hits a canonical network exactly when the network contains the address. */
  lemma ProbeContains(bits: seq<bool>, length: nat, network: seq<bool>)
    requires |network| == |bits| && (length <= |bits| ==> forall i :: length <= i < |network| ==> !network[i])
    ensures (length, network) in ProbeKeys(bits, |bits| + 1) <==>
      length <= |bits| && bits[..length] == network[..length]
  {
    var probes := ProbeKeys(bits, |bits| + 1);
    if length <= |bits| {
      MaskedPrefix(bits, network, length);
      assert probes[length] == (length, And(bits, Mask(|bits|, length)));
    }
  }

  // The whole visit

  ghost predicate NameCandidate(added: seq<Added>, domain: string, c: nat) {
    exists a :: a in added && a.candidate == c && MatchesName(a.matchSet, a.categories, domain)
  }

  ghost predicate IpCandidate(added: seq<Added>, address: IpAddr, c: nat) {
    exists a :: a in added && a.candidate == c && MatchesIp(a.matchSet, a.categories, address)
  }

  lemma ExactPart(added: seq<Added>, domain: string, c: nat)
    ensures c in Posted(Collected(added, ExactKeys), domain) <==>
      exists a :: a in added && a.candidate == c && Exact in a.categories && domain in a.matchSet.exact
  {
    PostedMember(Collected(added, ExactKeys), domain, c);
    CollectedOnAny(added, ExactKeys, [domain], c);
    assert OnAny(Collected(added, ExactKeys), [domain], c) <==> (domain, c) in Collected(added, ExactKeys) by {
      assert domain in [domain];
    }
    if a :| a in added && a.candidate == c && Exact in a.categories && domain in a.matchSet.exact {
      assert domain in [domain] && domain in ExactKeys(a);
    }
  }

  lemma SuffixPart(added: seq<Added>, domain: string, c: nat)
    ensures OnAny(Collected(added, SuffixKeys), LabelSuffixes(domain), c) <==>
      exists a :: a in added && a.candidate == c && Suffix in a.categories && SomeSuffix(a.matchSet, domain)
  {
    CollectedOnAny(added, SuffixKeys, LabelSuffixes(domain), c);
    forall s: string ensures s in LabelSuffixes(domain) <==> IsLabelSuffix(domain, s) { LabelSuffixMember(domain, s); }
    if a :| a in added && a.candidate == c && Suffix in a.categories && SomeSuffix(a.matchSet, domain) {
      var s :| s in a.matchSet.suffix && IsLabelSuffix(domain, s);
      assert s in LabelSuffixes(domain) && s in SuffixKeys(a);
    }
  }

  lemma KeywordPart(added: seq<Added>, domain: string, c: nat)
    ensures (exists k :: (k, c) in Collected(added, KeywordKeys) && Occurs(domain, k)) <==>
      exists a :: a in added && a.candidate == c && Keyword in a.categories && SomeKeyword(a.matchSet, domain)
  {
    forall k: string ensures (k, c) in Collected(added, KeywordKeys) <==>
      exists a :: a in added && a.candidate == c && k in KeywordKeys(a)
    {
      CollectedOnAny(added, KeywordKeys, [k], c);
      assert k in [k];
    }
    if a :| a in added && a.candidate == c && Keyword in a.categories && SomeKeyword(a.matchSet, domain) {
      var k :| k in a.matchSet.keywords && Occurs(domain, k);
      assert k in KeywordKeys(a);
      assert (k, c) in Collected(added, KeywordKeys);
    }
  }

  lemma NameParts(added: seq<Added>, domain: string, c: nat)
    ensures NameCandidate(added, domain, c) <==>
      || c in Posted(Collected(added, ExactKeys), domain)
      || OnAny(Collected(added, SuffixKeys), LabelSuffixes(domain), c)
      || exists k :: (k, c) in Collected(added, KeywordKeys) && Occurs(domain, k)
  {
    ExactPart(added, domain, c);
    SuffixPart(added, domain, c);
    KeywordPart(added, domain, c);
  }

  lemma Net4Part(added: seq<Added>, bits: Bits32, c: nat)
    requires forall a :: a in added ==> WellFormed(a.matchSet)
    ensures OnAny(Collected(added, Net4Keys), ProbeKeys(bits, 33), c) <==> IpCandidate(added, V4(bits), c)
  {
    CollectedOnAny(added, Net4Keys, ProbeKeys(bits, 33), c);
    forall a | a in added
      ensures (exists k :: k in ProbeKeys(bits, 33) && k in Net4Keys(a)) <==>
        MatchesIp(a.matchSet, a.categories, V4(bits))
    {
      if Ip in a.categories {
        forall n | n in a.matchSet.cidrs && n.Net4?
          ensures (n.length, n.network4) in ProbeKeys(bits, 33) <==> Contains(n, V4(bits))
        {
          ProbeContains(bits, n.length, n.network4);
        }
        if n :| n in a.matchSet.cidrs && Contains(n, V4(bits)) {
          assert (n.length, n.network4) in ProbeKeys(bits, 33) && (n.length, n.network4) in Net4Keys(a);
        }
      }
    }
  }

  lemma Net6Part(added: seq<Added>, bits: Bits128, c: nat)
    requires forall a :: a in added ==> WellFormed(a.matchSet)
    ensures OnAny(Collected(added, Net6Keys), ProbeKeys(bits, 129), c) <==> IpCandidate(added, V6(bits), c)
  {
    CollectedOnAny(added, Net6Keys, ProbeKeys(bits, 129), c);
    forall a | a in added
      ensures (exists k :: k in ProbeKeys(bits, 129) && k in Net6Keys(a)) <==>
        MatchesIp(a.matchSet, a.categories, V6(bits))
    {
      if Ip in a.categories {
        forall n | n in a.matchSet.cidrs && n.Net6?
          ensures (n.length, n.network6) in ProbeKeys(bits, 129) <==> Contains(n, V6(bits))
        {
          ProbeContains(bits, n.length, n.network6);
        }
        if n :| n in a.matchSet.cidrs && Contains(n, V6(bits)) {
          assert (n.length, n.network6) in ProbeKeys(bits, 129) && (n.length, n.network6) in Net6Keys(a);
        }
      }
    }
  }

  function NameLists(index: MatchCandidateIndex, domain: string): seq<seq<nat>> {
    ListsAt(index.exact.postings, domain) + ListsOf(index.suffix, LabelSuffixes(domain))
    + KeywordLists(index.keyword.postings, domain, |domain| + 1)
  }

  function IpLists(index: MatchCandidateIndex, address: IpAddr): seq<seq<nat>> {
    match address
    case V4(bits) => ListsOf(index.v4, ProbeKeys(bits, 33))
    case V6(bits) => ListsOf(index.v6, ProbeKeys(bits, 129))
  }

  /** All lists visited for an input. */
  function MatchLists(index: MatchCandidateIndex, domain: Option<string>, address: Option<IpAddr>): seq<seq<nat>> {
    (if domain.Some? then NameLists(index, domain.value) else [])
    + if address.Some? then IpLists(index, address.value) else []
  }

  method VisitName(index: MatchCandidateIndex, domain: string, ghost added: seq<Added>)
      returns (lists: seq<seq<nat>>, ghost held: set<nat>)
    requires IsMatchIndex(index, added)
    ensures Holds(lists, held) && forall c: nat :: c in held <==> NameCandidate(added, domain, c)
    ensures lists == NameLists(index, domain)
  {
    KeyOrders();
    lists := VisitCandidateList(index.exact, domain, StringLe(), Collected(added, ExactKeys));
    held := Posted(Collected(added, ExactKeys), domain);
    var suffixes, keywords;
    ghost var heldS, heldK;
    suffixes, heldS := VisitSuffixes(index.suffix, domain, Collected(added, SuffixKeys));
    HoldsBoth(lists, held, suffixes, heldS);
    lists, held := lists + suffixes, held + heldS;
    keywords, heldK := VisitKeywords(index.keyword, domain, Collected(added, KeywordKeys));
    HoldsBoth(lists, held, keywords, heldK);
    lists, held := lists + keywords, held + heldK;
    forall c: nat ensures c in held <==> NameCandidate(added, domain, c) { NameParts(added, domain, c); }
  }

  method VisitIp(index: MatchCandidateIndex, address: IpAddr, ghost added: seq<Added>)
      returns (lists: seq<seq<nat>>, ghost held: set<nat>)
    requires IsMatchIndex(index, added)
    ensures Holds(lists, held) && forall c: nat :: c in held <==> IpCandidate(added, address, c)
    ensures lists == IpLists(index, address)
  {
    KeyOrders();
    match address {
      case V4(bits) =>
        lists, held := VisitPrefixes(index.v4, bits, Collected(added, Net4Keys));
        forall c: nat ensures c in held <==> IpCandidate(added, address, c) { Net4Part(added, bits, c); }
      case V6(bits) =>
        lists, held := VisitPrefixes(index.v6, bits, Collected(added, Net6Keys));
        forall c: nat ensures c in held <==> IpCandidate(added, address, c) { Net6Part(added, bits, c); }
    }
  }

  /** The posting lists visited hold exactly the candidates whose match sets accept the input. */
  method VisitMatchCandidateLists(
      index: MatchCandidateIndex, domain: Option<string>, address: Option<IpAddr>, ghost added: seq<Added>)
      returns (lists: seq<seq<nat>>)
    requires IsMatchIndex(index, added)
    ensures Holds(lists, MatchCandidates(added, domain, address))
    ensures lists == MatchLists(index, domain, address)
  {
    lists := [];
    ghost var held: set<nat> := {};
    if domain.Some? {
      lists, held := VisitName(index, domain.value, added);
    }
    if address.Some? {
      var more;
      ghost var heldIp;
      more, heldIp := VisitIp(index, address.value, added);
      HoldsBoth(lists, held, more, heldIp);
      lists, held := lists + more, held + heldIp;
    }
    forall c: nat ensures c in held <==> c in MatchCandidates(added, domain, address) {
      assert c in MatchCandidates(added, domain, address) <==>
        exists a :: a in added && a.candidate == c && Matches(a.matchSet, a.categories, domain, address);
    }
  }

  function Joined(lists: seq<seq<nat>>): seq<nat> {
    if lists == [] then [] else Joined(lists[..|lists| - 1]) + lists[|lists| - 1]
  }

  /** The same visit, one candidate at a time. */
  method VisitMatches(
      index: MatchCandidateIndex, domain: Option<string>, address: Option<IpAddr>, ghost added: seq<Added>)
      returns (visited: seq<nat>)
    requires IsMatchIndex(index, added)
    ensures forall c: nat :: c in visited <==> c in MatchCandidates(added, domain, address)
    ensures visited == Joined(MatchLists(index, domain, address))
  {
    var lists := VisitMatchCandidateLists(index, domain, address, added);
    visited := [];
    var k := 0;
    while k < |lists|
      invariant 0 <= k <= |lists|
      invariant visited == Joined(lists[..k])
    {
      assert lists[..k + 1][..k] == lists[..k];
      visited := visited + lists[k];
      k := k + 1;
    }
    assert lists[..k] == lists;
    forall c: nat ensures c in visited <==> InSome(lists, c) { JoinedMember(lists, c); }
  }

  lemma {:induction false} JoinedMember(lists: seq<seq<nat>>, c: nat)
    ensures c in Joined(lists) <==> InSome(lists, c)
  {
    if lists != [] {
      var n := |lists| - 1;
      JoinedMember(lists[..n], c);
      assert lists == lists[..n] + [lists[n]];
    }
  }
}
