/** Value-to-candidate posting lists (crates/ferrum2-rule/src/candidate.rs, `SparseValueIndex`). */
module SparseIndex {
  import opened Prelude
  import opened Orders

  const U32_MAX: nat := 0xFFFF_FFFF

  datatype CompileError = IndexOverflow | EmptyField | ResourceLimit

  datatype Result<+T> = Ok(value: T) | Err(error: CompileError)

  datatype Posting<K> = Posting(key: K, candidates: seq<nat>)

  /** Postings in ascending key order. */
  datatype SparseValueIndex<K> = SparseValueIndex(postings: seq<Posting<K>>)

  /** The pairs pushed so far; owned by value by the builders that embed it. */
  datatype SparseValueIndexBuilder<K> = SparseValueIndexBuilder(entries: seq<(K, nat)>)
  {
    function TryAdd(key: K, candidate: nat): Result<SparseValueIndexBuilder<K>> {
      if candidate > U32_MAX then Err(IndexOverflow)
      else Ok(SparseValueIndexBuilder(entries + [(key, candidate)]))
    }
  }

  ghost function Posted<K(!new)>(entries: seq<(K, nat)>, key: K): set<nat> {
    set e | e in entries && e.0 == key :: e.1
  }

  lemma PostedMember<K(!new)>(entries: seq<(K, nat)>, key: K, c: nat)
    ensures c in Posted(entries, key) <==> (key, c) in entries
  {
    if (key, c) in entries { assert (key, c).1 in Posted(entries, key); }
  }

  /** Candidate lists handed to a visitor: each ascending, and `s` is what they hold together. */
  ghost predicate Holds(lists: seq<seq<nat>>, s: set<nat>) {
    && (forall l :: l in lists ==> StrictlySorted(l, NatLe))
    && (forall c :: c in s <==> InSome(lists, c))
  }

  ghost predicate InSome(lists: seq<seq<nat>>, c: nat) {
    exists l :: l in lists && c in l
  }

  lemma HoldsBoth(a: seq<seq<nat>>, s: set<nat>, b: seq<seq<nat>>, t: set<nat>)
    requires Holds(a, s) && Holds(b, t)
    ensures Holds(a + b, s + t)
  {
    forall c ensures c in s + t <==> InSome(a + b, c) {
      if InSome(a, c) { var l :| l in a && c in l; assert l in a + b; }
      if InSome(b, c) { var l :| l in b && c in l; assert l in a + b; }
      if InSome(a + b, c) { var l :| l in a + b && c in l; assert l in a || l in b; }
    }
  }

  ghost predicate KeysAscend<K(!new)>(postings: seq<Posting<K>>, le: (K, K) -> bool) {
    forall i, j :: 0 <= i < j < |postings| ==>
      le(postings[i].key, postings[j].key) && postings[i].key != postings[j].key
  }

  ghost predicate IsPosting<K(!new)>(entries: seq<(K, nat)>, p: Posting<K>) {
    && StrictlySorted(p.candidates, NatLe) && p.candidates != []
    && forall c :: c in p.candidates <==> (p.key, c) in entries
  }

  ghost predicate HasKey<K(!new)>(postings: seq<Posting<K>>, key: K) {
    exists p :: p in postings && p.key == key
  }

  /** Each key of the entries has one posting, which lists exactly the candidates added for it. */
  ghost predicate IsIndexOf<K(!new)>(index: SparseValueIndex<K>, entries: seq<(K, nat)>, le: (K, K) -> bool) {
    && KeysAscend(index.postings, le)
    && (forall p :: p in index.postings ==> IsPosting(entries, p))
    && (forall e :: e in entries ==> HasKey(index.postings, e.0))
  }

  predicate EntryLe<K(==)>(le: (K, K) -> bool, a: (K, nat), b: (K, nat)) {
    if a.0 == b.0 then a.1 <= b.1 else le(a.0, b.0)
  }

  function ByKeyThenCandidate<K(==)>(le: (K, K) -> bool): ((K, nat), (K, nat)) -> bool {
    (a: (K, nat), b: (K, nat)) => EntryLe(le, a, b)
  }

  lemma EntryOrder<K(!new)>(le: (K, K) -> bool)
    requires TotalOrder(le)
    ensures TotalOrder(ByKeyThenCandidate(le))
  {
  }

  /** The end of the run of entries that share the key at `cursor`. */
  function RunEnd<K(==)>(entries: seq<(K, nat)>, cursor: nat): (end: nat)
    requires cursor < |entries|
    ensures cursor < end <= |entries|
    ensures forall k :: cursor <= k < end ==> entries[k].0 == entries[cursor].0
    ensures end < |entries| ==> entries[end].0 != entries[cursor].0
    decreases |entries| - cursor
  {
    if cursor + 1 == |entries| || entries[cursor + 1].0 != entries[cursor].0 then cursor + 1
    else RunEnd(entries, cursor + 1)
  }

  ghost predicate InRun<K(!new)>(run: seq<(K, nat)>, c: nat) {
    exists k :: 0 <= k < |run| && run[k].1 == c
  }

  lemma InRunGrows<K(!new)>(run: seq<(K, nat)>, k: nat)
    requires k < |run|
    ensures forall c :: InRun(run[..k + 1], c) <==> InRun(run[..k], c) || c == run[k].1
  {
    forall c ensures InRun(run[..k + 1], c) <==> InRun(run[..k], c) || c == run[k].1 {
      if InRun(run[..k], c) {
        var i :| 0 <= i < k && run[..k][i].1 == c;
        assert run[..k + 1][i].1 == c;
      }
      if c == run[k].1 { assert run[..k + 1][k].1 == c; }
      if InRun(run[..k + 1], c) {
        var i :| 0 <= i < k + 1 && run[..k + 1][i].1 == c;
        if i < k { assert run[..k][i].1 == c; }
      }
    }
  }

  /** The candidates of one run, each once. */
  method CollectRun<K(==, !new)>(run: seq<(K, nat)>, ghost le: (K, K) -> bool) returns (candidates: seq<nat>)
    requires forall i, j :: 0 <= i < j < |run| ==> run[i].1 <= run[j].1
    ensures StrictlySorted(candidates, NatLe)
    ensures forall c :: c in candidates <==> InRun(run, c)
    ensures run != [] ==> candidates != []
  {
    candidates := [];
    var k := 0;
    while k < |run|
      invariant 0 <= k <= |run|
      invariant StrictlySorted(candidates, NatLe)
      invariant forall c :: c in candidates <==> InRun(run[..k], c)
      invariant candidates != [] ==> k > 0 && candidates[|candidates| - 1] == run[k - 1].1
      invariant candidates == [] ==> k == 0
    {
      if candidates == [] || candidates[|candidates| - 1] != run[k].1 {
        forall i | 0 <= i < |candidates| ensures candidates[i] < run[k].1 {
          assert i < |candidates| - 1 ==> NatLe(candidates[i], candidates[|candidates| - 1]);
        }
        candidates := candidates + [run[k].1];
      }
      InRunGrows(run, k);
      k := k + 1;
    }
    assert run[..k] == run;
  }

  /** Ascending by key, and by candidate within one key. */
  ghost predicate EntriesAscend<K(!new)>(entries: seq<(K, nat)>, le: (K, K) -> bool) {
    && (forall i, j :: 0 <= i < j < |entries| ==> le(entries[i].0, entries[j].0))
    && (forall i, j :: 0 <= i < j < |entries| && entries[i].0 == entries[j].0 ==> entries[i].1 <= entries[j].1)
  }

  method SortEntries<K(==, !new)>(unsorted: seq<(K, nat)>, le: (K, K) -> bool) returns (entries: seq<(K, nat)>)
    requires TotalOrder(le)
    ensures EntriesAscend(entries, le)
    ensures forall e :: e in entries <==> e in unsorted
  {
    var entryLe := ByKeyThenCandidate(le);
    EntryOrder(le);
    entries := Sort(unsorted, entryLe);
    SortSorts(unsorted, entryLe);
    SortKeepsElements(unsorted, entryLe);
    forall i, j | 0 <= i < j < |entries|
      ensures le(entries[i].0, entries[j].0) && (entries[i].0 == entries[j].0 ==> entries[i].1 <= entries[j].1)
    {
      assert entryLe(entries[i], entries[j]);
      assert le(entries[i].0, entries[i].0);
    }
  }

  /** Every posting key so far comes strictly before `key`. */
  ghost predicate KeysBefore<K(!new)>(postings: seq<Posting<K>>, le: (K, K) -> bool, key: K) {
    forall p :: p in postings ==> le(p.key, key) && p.key != key
  }

  /** Sorts the entries and groups them by key. */
  method Build<K(==, !new)>(builder: SparseValueIndexBuilder<K>, le: (K, K) -> bool)
      returns (index: SparseValueIndex<K>)
    requires TotalOrder(le)
    ensures IsIndexOf(index, builder.entries, le)
  {
    var entries := SortEntries(builder.entries, le);
    index := Group(entries, le);
    SameMembersSameIndex(index, entries, builder.entries, le);
  }

  lemma SameMembersSameIndex<K(!new)>(
      index: SparseValueIndex<K>, a: seq<(K, nat)>, b: seq<(K, nat)>, le: (K, K) -> bool)
    requires IsIndexOf(index, a, le) && forall e :: e in a <==> e in b
    ensures IsIndexOf(index, b, le)
  {
  }

  method Group<K(==, !new)>(entries: seq<(K, nat)>, ghost le: (K, K) -> bool) returns (index: SparseValueIndex<K>)
    requires TotalOrder(le) && EntriesAscend(entries, le)
    ensures IsIndexOf(index, entries, le)
  {
    var postings: seq<Posting<K>> := [];
    var cursor := 0;
    while cursor < |entries|
      invariant 0 <= cursor <= |entries|
      invariant IsIndexOf(SparseValueIndex(postings), entries[..cursor], le)
      invariant cursor < |entries| ==> KeysBefore(postings, le, entries[cursor].0)
    {
      var end := RunEnd(entries, cursor);
      var candidates := CollectRun(entries[cursor..end], le);
      var posting := Posting(entries[cursor].0, candidates);
      GroupOneMore(entries[..cursor], entries[cursor..end], postings, posting, le);
      assert entries[..end] == entries[..cursor] + entries[cursor..end];
      if end < |entries| {
        NextKeyAbove(postings, posting, le, entries[end].0);
      }
      postings := postings + [posting];
      cursor := end;
    }
    assert entries[..cursor] == entries;
    index := SparseValueIndex(postings);
  }

  lemma NextKeyAbove<K(!new)>(postings: seq<Posting<K>>, posting: Posting<K>, le: (K, K) -> bool, key: K)
    requires TotalOrder(le) && KeysBefore(postings, le, posting.key)
    requires le(posting.key, key) && posting.key != key
    ensures KeysBefore(postings + [posting], le, key)
  {
  }

  /** Grouping a run under a fresh key keeps the index exact. */
  lemma GroupOneMore<K(!new)>(
      earlier: seq<(K, nat)>, run: seq<(K, nat)>, postings: seq<Posting<K>>, posting: Posting<K>, le: (K, K) -> bool)
    requires IsIndexOf(SparseValueIndex(postings), earlier, le)
    requires KeysBefore(postings, le, posting.key)
    requires forall k :: 0 <= k < |run| ==> run[k].0 == posting.key
    requires StrictlySorted(posting.candidates, NatLe) && posting.candidates != []
    requires forall c :: c in posting.candidates <==> InRun(run, c)
    ensures IsIndexOf(SparseValueIndex(postings + [posting]), earlier + run, le)
  {
    OldKeysDiffer(earlier, postings, posting.key);
    PostingsOneMore(earlier, run, postings, posting);
    KeysOneMore(earlier, run, postings, posting);
    KeysAscendOneMore(postings, posting, le);
  }

  lemma KeysAscendOneMore<K(!new)>(postings: seq<Posting<K>>, posting: Posting<K>, le: (K, K) -> bool)
    requires KeysAscend(postings, le) && KeysBefore(postings, le, posting.key)
    ensures KeysAscend(postings + [posting], le)
  {
  }

  lemma PostingsOneMore<K(!new)>(
      earlier: seq<(K, nat)>, run: seq<(K, nat)>, postings: seq<Posting<K>>, posting: Posting<K>)
    requires forall p :: p in postings ==> IsPosting(earlier, p) && p.key != posting.key
    requires forall e :: e in earlier ==> e.0 != posting.key
    requires forall k :: 0 <= k < |run| ==> run[k].0 == posting.key
    requires StrictlySorted(posting.candidates, NatLe) && posting.candidates != []
    requires forall c :: c in posting.candidates <==> InRun(run, c)
    ensures forall p :: p in postings + [posting] ==> IsPosting(earlier + run, p)
  {
    forall p | p in postings + [posting] ensures IsPosting(earlier + run, p) {
      if p in postings {
        OldPostingStays(earlier, run, posting.key, p);
      } else {
        RunPosting(earlier, run, posting);
      }
    }
  }

  lemma KeysOneMore<K(!new)>(earlier: seq<(K, nat)>, run: seq<(K, nat)>, postings: seq<Posting<K>>, posting: Posting<K>)
    requires forall e :: e in earlier ==> HasKey(postings, e.0)
    requires forall k :: 0 <= k < |run| ==> run[k].0 == posting.key
    ensures forall e :: e in earlier + run ==> HasKey(postings + [posting], e.0)
  {
    forall e | e in earlier + run ensures HasKey(postings + [posting], e.0) {
      if e in earlier {
        var p :| p in postings && p.key == e.0;
        assert p in postings + [posting];
      } else {
        assert e in run;
        assert posting in postings + [posting];
      }
    }
  }

  lemma OldKeysDiffer<K(!new)>(earlier: seq<(K, nat)>, postings: seq<Posting<K>>, key: K)
    requires forall e :: e in earlier ==> HasKey(postings, e.0)
    requires forall p :: p in postings ==> p.key != key
    ensures forall e :: e in earlier ==> e.0 != key
  {
  }

  lemma OldPostingStays<K(!new)>(earlier: seq<(K, nat)>, run: seq<(K, nat)>, key: K, p: Posting<K>)
    requires IsPosting(earlier, p) && p.key != key
    requires forall k :: 0 <= k < |run| ==> run[k].0 == key
    ensures IsPosting(earlier + run, p)
  {
    assert forall c :: (p.key, c) in earlier + run <==> (p.key, c) in earlier;
  }

  lemma RunPosting<K(!new)>(earlier: seq<(K, nat)>, run: seq<(K, nat)>, p: Posting<K>)
    requires StrictlySorted(p.candidates, NatLe) && p.candidates != []
    requires forall c :: c in p.candidates <==> InRun(run, c)
    requires forall k :: 0 <= k < |run| ==> run[k].0 == p.key
    requires forall e :: e in earlier ==> e.0 != p.key
    ensures IsPosting(earlier + run, p)
  {
    forall c: nat ensures InRun(run, c) <==> (p.key, c) in earlier + run {
      if InRun(run, c) {
        var k :| 0 <= k < |run| && run[k].1 == c;
        assert run[k] == (p.key, c);
      }
      if (p.key, c) in earlier + run {
        assert (p.key, c) in run;
        var k :| 0 <= k < |run| && run[k] == (p.key, c);
        assert run[k].1 == c;
      }
    }
  }

  /** The lists of the postings with a key, in order. */
  function ListsAt<K(==)>(postings: seq<Posting<K>>, key: K): seq<seq<nat>> {
    if postings == [] then []
    else (if postings[0].key == key then [postings[0].candidates] else []) + ListsAt(postings[1..], key)
  }

  /** The lists visited for a list of keys, one key after the other. */
  function ListsOf<K(==)>(index: SparseValueIndex<K>, keys: seq<K>): seq<seq<nat>> {
    if keys == [] then []
    else ListsOf(index, keys[..|keys| - 1]) + ListsAt(index.postings, keys[|keys| - 1])
  }

  lemma ListsOfOneMore<K>(index: SparseValueIndex<K>, keys: seq<K>, key: K)
    ensures ListsOf(index, keys + [key]) == ListsOf(index, keys) + ListsAt(index.postings, key)
  {
    assert (keys + [key])[..|keys|] == keys;
  }

  lemma {:induction false} NoListAt<K(!new)>(postings: seq<Posting<K>>, key: K)
    requires forall p :: p in postings ==> p.key != key
    ensures ListsAt(postings, key) == []
  {
    if postings != [] {
      NoListAt(postings[1..], key);
    }
  }

  /** Ascending keys have at most one posting each. */
  lemma {:induction false} OneListAt<K(!new)>(postings: seq<Posting<K>>, k: nat, le: (K, K) -> bool)
    requires KeysAscend(postings, le) && k < |postings|
    ensures ListsAt(postings, postings[k].key) == [postings[k].candidates]
  {
    if k == 0 {
      forall p | p in postings[1..] ensures p.key != postings[0].key {
        var i :| 0 <= i < |postings[1..]| && postings[1..][i] == p;
        assert postings[0].key != postings[i + 1].key;
      }
      NoListAt(postings[1..], postings[0].key);
    } else {
      assert postings[0].key != postings[k].key;
      OneListAt(postings[1..], k - 1, le);
    }
  }

  /** The posting list of one key, as the list of lists visited: none or one. */
  method VisitCandidateList<K(==, !new)>(
      index: SparseValueIndex<K>, key: K, le: (K, K) -> bool, ghost entries: seq<(K, nat)>)
      returns (lists: seq<seq<nat>>)
    requires TotalOrder(le) && IsIndexOf(index, entries, le)
    ensures |lists| <= 1 && Holds(lists, Posted(entries, key))
    ensures lists == ListsAt(index.postings, key)
  {
    var keys := seq(|index.postings|, i requires 0 <= i < |index.postings| => index.postings[i].key);
    var found := BinarySearch(keys, key, le);
    match found {
      case Some(k) =>
        lists := [index.postings[k].candidates];
        OneListAt(index.postings, k, le);
        assert IsPosting(entries, index.postings[k]);
        forall c ensures c in Posted(entries, key) <==> InSome(lists, c) {
          PostedMember(entries, key, c);
          assert lists[0] in lists;
        }
      case None =>
        lists := [];
        forall p | p in index.postings ensures p.key != key {
          var i :| 0 <= i < |index.postings| && index.postings[i] == p;
          assert keys[i] == p.key;
        }
        NoListAt(index.postings, key);
        forall c ensures c !in Posted(entries, key) {
          PostedMember(entries, key, c);
          assert (key, c) in entries ==> HasKey(index.postings, (key, c).0);
        }
    }
  }

  /** Some key of a list was posted for `c`. */
  ghost predicate OnAny<K(!new)>(entries: seq<(K, nat)>, keys: seq<K>, c: nat) {
    exists k :: k in keys && (k, c) in entries
  }

  lemma OnAnyBoth<K(!new)>(a: seq<(K, nat)>, b: seq<(K, nat)>, keys: seq<K>, c: nat)
    ensures OnAny(a + b, keys, c) <==> OnAny(a, keys, c) || OnAny(b, keys, c)
  {
    if OnAny(a, keys, c) { var k :| k in keys && (k, c) in a; assert (k, c) in a + b; }
    if OnAny(b, keys, c) { var k :| k in keys && (k, c) in b; assert (k, c) in a + b; }
  }

  /** Visiting one more key adds what was posted for it. */
  lemma OneMoreKey<K(!new)>(entries: seq<(K, nat)>, walked: seq<K>, held: set<nat>, key: K)
    requires forall c: nat :: c in held <==> OnAny(entries, walked, c)
    ensures forall c: nat :: c in held + Posted(entries, key) <==> OnAny(entries, walked + [key], c)
  {
    forall c: nat ensures c in held + Posted(entries, key) <==> OnAny(entries, walked + [key], c) {
      PostedMember(entries, key, c);
      if OnAny(entries, walked, c) {
        var k :| k in walked && (k, c) in entries;
        assert k in walked + [key];
      }
      if (key, c) in entries {
        assert (walked + [key])[|walked|] == key;
      }
    }
  }

  /** The state of a visit after some keys: the lists seen, and what they hold together. */
  ghost predicate Visited<K(!new)>(
      index: SparseValueIndex<K>, entries: seq<(K, nat)>, walked: seq<K>, lists: seq<seq<nat>>, held: set<nat>)
  {
    && Holds(lists, held) && lists == ListsOf(index, walked)
    && forall c: nat :: c in held <==> OnAny(entries, walked, c)
  }

  /** Visits one more key. */
  method VisitNext<K(==, !new)>(
      index: SparseValueIndex<K>, key: K, le: (K, K) -> bool, ghost entries: seq<(K, nat)>,
      ghost walked: seq<K>, lists0: seq<seq<nat>>, ghost held0: set<nat>)
      returns (lists: seq<seq<nat>>, ghost held: set<nat>)
    requires TotalOrder(le) && IsIndexOf(index, entries, le)
    requires Visited(index, entries, walked, lists0, held0)
    ensures Visited(index, entries, walked + [key], lists, held)
  {
    var visited := VisitCandidateList(index, key, le, entries);
    HoldsBoth(lists0, held0, visited, Posted(entries, key));
    OneMoreKey(entries, walked, held0, key);
    ListsOfOneMore(index, walked, key);
    lists, held := lists0 + visited, held0 + Posted(entries, key);
  }

  /** Values pushed for one candidate. */
  ghost function Tagged<K>(values: seq<K>, candidate: nat): seq<(K, nat)> {
    seq(|values|, k requires 0 <= k < |values| => (values[k], candidate))
  }

  lemma TaggedOnAny<K(!new)>(values: seq<K>, candidate: nat, keys: seq<K>, c: nat)
    ensures OnAny(Tagged(values, candidate), keys, c) <==> c == candidate && exists k :: k in keys && k in values
  {
    var tagged := Tagged(values, candidate);
    forall v ensures (v, c) in tagged <==> v in values && c == candidate {
      if v in values && c == candidate {
        var k :| 0 <= k < |values| && values[k] == v;
        assert tagged[k] == (v, c);
      }
    }
  }

  /** Pushes every value of a list for one candidate. */
  method AddAll<K>(builder: SparseValueIndexBuilder<K>, values: seq<K>, candidate: nat)
      returns (r: Result<SparseValueIndexBuilder<K>>)
    ensures r.Err? <==> candidate > U32_MAX && values != []
    ensures r.Err? ==> r.error == IndexOverflow
    ensures r.Ok? ==> r.value.entries == builder.entries + Tagged(values, candidate)
  {
    var current := builder;
    var k := 0;
    while k < |values|
      invariant 0 <= k <= |values|
      invariant k > 0 ==> candidate <= U32_MAX
      invariant current.entries == builder.entries + Tagged(values[..k], candidate)
    {
      var added := current.TryAdd(values[k], candidate);
      match added {
        case Err(error) =>
          return Err(error);
        case Ok(next) =>
          assert Tagged(values[..k + 1], candidate) == Tagged(values[..k], candidate) + [(values[k], candidate)];
          current := next;
      }
      k := k + 1;
    }
    assert values[..k] == values;
    r := Ok(current);
  }

  /** Visits a list of keys one after the other. */
  method VisitKeys<K(==, !new)>(
      index: SparseValueIndex<K>, keys: seq<K>, le: (K, K) -> bool, ghost entries: seq<(K, nat)>)
      returns (lists: seq<seq<nat>>, ghost held: set<nat>)
    requires TotalOrder(le) && IsIndexOf(index, entries, le)
    ensures Holds(lists, held)
    ensures forall c: nat :: c in held <==> OnAny(entries, keys, c)
    ensures lists == ListsOf(index, keys)
  {
    lists, held := [], {};
    var k := 0;
    while k < |keys|
      invariant 0 <= k <= |keys|
      invariant Visited(index, entries, keys[..k], lists, held)
    {
      lists, held := VisitNext(index, keys[k], le, entries, keys[..k], lists, held);
      assert keys[..k + 1] == keys[..k] + [keys[k]];
      k := k + 1;
    }
    assert keys[..k] == keys;
  }
}
