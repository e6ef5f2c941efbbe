/**
 The interface-resolution cache and its lookup, compute, insert sequence (crates/ferrum2-net/src/resolver.rs).
 Destination and options appear as one question, an uncached resolution as the result it happens to give.
 */
module InterfaceCache {
  import opened Prelude
  import opened Orders
  import opened Digraph

  const CAPACITY: nat := 256

  datatype Key = Key(generation: nat, observation: nat, question: nat)

  datatype Resolved = Resolved(decision: nat, cacheHit: bool)

  datatype Cache = Cache(observation: Option<nat>, entries: map<Key, Resolved>, order: seq<Key>)

  const EMPTY: Cache := Cache(None, map[], [])

  /** A newer observation empties the cache. */
  function AfterLookup(c: Cache, key: Key): Cache {
    if c.observation.None? then c.(observation := Some(key.observation))
    else if key.observation > c.observation.value then Cache(Some(key.observation), map[], [])
    else c
  }

  function Found(c: Cache, key: Key): Option<Resolved> {
    var after := AfterLookup(c, key);
    if after.observation == Some(key.observation) && key in after.entries then
      Some(after.entries[key].(cacheHit := true))
    else None
  }

  /** The oldest insertions make room. */
  function Evicted(c: Cache): (r: Cache)
    decreases |c.order|
  {
    if |c.entries| < CAPACITY || c.order == [] then c
    else Evicted(c.(entries := c.entries - {c.order[0]}, order := c.order[1..]))
  }

  predicate Accepts(c: Cache, key: Key) {
    c.observation == Some(key.observation) && key !in c.entries
  }

  function AfterInsert(c: Cache, key: Key, resolved: Resolved): Cache {
    if !Accepts(c, key) then c
    else
      var roomy := Evicted(c);
      roomy.(order := roomy.order + [key], entries := roomy.entries[key := resolved])
  }

  class ResolutionCache {
    var observation: Option<nat>
    var entries: map<Key, Resolved>
    var order: seq<Key>

    function View(): Cache
      reads this
    {
      Cache(observation, entries, order)
    }

    constructor ()
      ensures View() == EMPTY
    {
      observation, entries, order := None, map[], [];
    }

    method Lookup(key: Key) returns (r: Option<Resolved>)
      modifies this
      ensures View() == AfterLookup(old(View()), key) && r == Found(old(View()), key)
    {
      if observation.None? {
        observation := Some(key.observation);
      } else if key.observation > observation.value {
        entries, order := map[], [];
        observation := Some(key.observation);
      } else if key.observation < observation.value {
        return None;
      }
      return if key in entries then Some(entries[key].(cacheHit := true)) else None;
    }

    method Insert(key: Key, resolved: Resolved)
      modifies this
      ensures View() == AfterInsert(old(View()), key, resolved)
    {
      if observation != Some(key.observation) || key in entries {
        return;
      }
      while |entries| >= CAPACITY
        invariant Evicted(View()) == Evicted(old(View())) && observation == old(observation)
        decreases |order|
      {
        if order == [] {
          break;
        }
        var evicted := order[0];
        order := order[1..];
        entries := entries - {evicted};
      }
      order := order + [key];
      entries := entries[key := resolved];
    }
  }

  // The cache along its accepted insertions

  datatype Insertion = Insertion(key: Key, resolved: Resolved)

  function KeysOf(s: seq<Insertion>): (r: seq<Key>)
    ensures |r| == |s|
  {
    seq(|s|, i requires 0 <= i < |s| => s[i].key)
  }

  function Recent(accepted: seq<Insertion>): seq<Insertion> {
    if |accepted| <= CAPACITY then accepted else accepted[|accepted| - CAPACITY..]
  }

  /** Entries and queue hold exactly these insertions, oldest first, all of the one observation. */
  ghost predicate Holds(c: Cache, recent: seq<Insertion>) {
    && c.order == KeysOf(recent) && Distinct(c.order)
    && c.entries.Keys == Elements(c.order)
    && forall i :: 0 <= i < |recent| ==> HoldsOne(c, recent[i])
  }

  ghost predicate HoldsOne(c: Cache, x: Insertion) {
    x.key in c.entries && c.entries[x.key] == x.resolved && Some(x.key.observation) == c.observation
  }

  function AcceptedAfterLookup(c: Cache, accepted: seq<Insertion>, key: Key): seq<Insertion> {
    if c.observation.Some? && key.observation > c.observation.value then [] else accepted
  }

  function AcceptedAfterInsert(c: Cache, accepted: seq<Insertion>, key: Key, resolved: Resolved): seq<Insertion> {
    if Accepts(c, key) then accepted + [Insertion(key, resolved)] else accepted
  }

  lemma EntriesAreQueued(c: Cache, recent: seq<Insertion>)
    requires Holds(c, recent)
    ensures |c.entries| == |c.order| == |recent|
  {
    DistinctCard(c.order);
    assert |c.entries| == |c.entries.Keys|;
  }

  lemma LookupHolds(c: Cache, accepted: seq<Insertion>, key: Key)
    requires Holds(c, Recent(accepted))
    ensures Holds(AfterLookup(c, key), Recent(AcceptedAfterLookup(c, accepted, key)))
  {
    var recent := Recent(accepted);
    if c.observation.None? {
      assert |recent| > 0 ==> HoldsOne(c, recent[0]);
    }
  }

  function WithoutOldest(c: Cache): Cache
    requires c.order != []
  {
    c.(entries := c.entries - {c.order[0]}, order := c.order[1..])
  }

  lemma OldestLeaves(c: Cache, recent: seq<Insertion>)
    requires Holds(c, recent) && recent != []
    ensures Holds(WithoutOldest(c), recent[1..])
  {
    var after, order := WithoutOldest(c), c.order;
    forall x | x in order && x != order[0] ensures x in order[1..] {
      var i :| 0 <= i < |order| && order[i] == x;
      assert order[1..][i - 1] == x;
    }
    assert Elements(order[1..]) == Elements(order) - {order[0]};
    forall i | 0 <= i < |recent[1..]| ensures HoldsOne(after, recent[1..][i]) {
      assert HoldsOne(c, recent[i + 1]);
      assert order[i + 1] != order[0];
    }
  }

  lemma NewestJoins(c: Cache, recent: seq<Insertion>, one: Insertion)
    requires Holds(c, recent) && Accepts(c, one.key)
    ensures Holds(c.(order := c.order + [one.key], entries := c.entries[one.key := one.resolved]), recent + [one])
  {
    var after := c.(order := c.order + [one.key], entries := c.entries[one.key := one.resolved]);
    assert one.key !in c.order by { assert one.key !in Elements(c.order); }
    forall x ensures x in after.order <==> x in c.order || x == one.key { assert one.key == after.order[|c.order|]; }
    forall i | 0 <= i < |recent + [one]| ensures HoldsOne(after, (recent + [one])[i]) {
      if i < |recent| { assert HoldsOne(c, recent[i]); }
    }
  }

  lemma RecentAfter(accepted: seq<Insertion>, one: Insertion)
    ensures Recent(accepted + [one]) ==
      (if |Recent(accepted)| < CAPACITY then Recent(accepted) else Recent(accepted)[1..]) + [one]
  {
  }

  /** Only a full cache evicts, and then only its oldest entry. */
  lemma EvictedOnce(c: Cache, recent: seq<Insertion>)
    requires Holds(c, recent) && |recent| <= CAPACITY
    ensures Evicted(c) == if |recent| < CAPACITY then c else WithoutOldest(c)
  {
    EntriesAreQueued(c, recent);
    if |recent| == CAPACITY {
      OldestLeaves(c, recent);
      EntriesAreQueued(WithoutOldest(c), recent[1..]);
      assert Evicted(WithoutOldest(c)) == WithoutOldest(c);
    }
  }

  lemma InsertHolds(c: Cache, accepted: seq<Insertion>, key: Key, resolved: Resolved)
    requires Holds(c, Recent(accepted))
    ensures Holds(AfterInsert(c, key, resolved), Recent(AcceptedAfterInsert(c, accepted, key, resolved)))
  {
    if Accepts(c, key) {
      var one := Insertion(key, resolved);
      var recent := Recent(accepted);
      EvictedOnce(c, recent);
      RecentAfter(accepted, one);
      if |recent| < CAPACITY {
        NewestJoins(c, recent, one);
      } else {
        OldestLeaves(c, recent);
        NewestJoins(WithoutOldest(c), recent[1..], one);
      }
    }
  }

  // Any number of threads

  /** Between its lookup and its insert a thread holds the key, then also its own result. */
  datatype Thread =
    | Missed(key: Key)
    | Computed(key: Key, resolved: Resolved)
    | Returned(key: Key, answer: Option<Resolved>)

  datatype World = World(
    cache: Cache,
    threads: map<nat, Thread>,
    accepted: seq<Insertion>,          // since the newest observation was first looked up
    computed: set<(Key, nat)>,         // every decision an uncached resolution came to
    newest: Option<nat>                // the newest observation looked up
  )

  datatype Step =
    | Lookup(id: nat, key: Key)
    | Compute(thread: nat, decision: Option<nat>)
    | Insert(thread: nat)

  const INITIAL: World := World(EMPTY, map[], [], {}, None)

  predicate Enabled(w: World, step: Step) {
    match step
    case Lookup(id, _) => id !in w.threads
    case Compute(id, _) => id in w.threads && w.threads[id].Missed?
    case Insert(id) => id in w.threads && w.threads[id].Computed?
  }

  function Apply(w: World, step: Step): World
    requires Enabled(w, step)
  {
    match step
    case Lookup(id, key) =>
      var found := Found(w.cache, key);
      w.(cache := AfterLookup(w.cache, key),
         threads := w.threads[id := if found.Some? then Returned(key, found) else Missed(key)],
         accepted := AcceptedAfterLookup(w.cache, w.accepted, key),
         newest := if w.newest.None? || key.observation > w.newest.value then Some(key.observation) else w.newest)
    case Compute(id, decision) =>
      var key := w.threads[id].key;
      if decision.None? then w.(threads := w.threads[id := Returned(key, None)])
      else
        w.(threads := w.threads[id := Computed(key, Resolved(decision.value, false))],
           computed := w.computed + {(key, decision.value)})
    case Insert(id) =>
      var x := w.threads[id];
      w.(cache := AfterInsert(w.cache, x.key, x.resolved),
         threads := w.threads[id := Returned(x.key, Some(x.resolved))],
         accepted := AcceptedAfterInsert(w.cache, w.accepted, x.key, x.resolved))
  }

  ghost predicate CanRun(w: World, steps: seq<Step>)
    decreases |steps|
  {
    steps == [] || (Enabled(w, steps[0]) && CanRun(Apply(w, steps[0]), steps[1..]))
  }

  ghost function Run(w: World, steps: seq<Step>): World
    requires CanRun(w, steps)
    decreases |steps|
  {
    if steps == [] then w else Run(Apply(w, steps[0]), steps[1..])
  }

  /** A stored or held result was computed for its very key and is not marked as a hit. */
  predicate Genuine(w: World, key: Key, r: Resolved) {
    (key, r.decision) in w.computed && !r.cacheHit
  }

  ghost predicate EntriesGenuine(w: World) {
    forall key :: key in w.cache.entries ==> Genuine(w, key, w.cache.entries[key])
  }

  ghost predicate ThreadOk(w: World, x: Thread) {
    match x
    case Missed(_) => true
    case Computed(key, r) => Genuine(w, key, r)
    case Returned(key, answer) => answer.Some? ==> (key, answer.value.decision) in w.computed
  }

  ghost predicate Inv(w: World) {
    && Holds(w.cache, Recent(w.accepted)) && w.cache.observation == w.newest
    && EntriesGenuine(w)
    && forall id :: id in w.threads ==> ThreadOk(w, w.threads[id])
  }

  lemma EvictedIsPart(c: Cache)
    ensures forall key :: key in Evicted(c).entries ==> key in c.entries && Evicted(c).entries[key] == c.entries[key]
    decreases |c.order|
  {
    if |c.entries| >= CAPACITY && c.order != [] {
      EvictedIsPart(c.(entries := c.entries - {c.order[0]}, order := c.order[1..]));
    }
  }

  lemma LookupKeeps(w: World, id: nat, key: Key)
    requires Inv(w) && id !in w.threads
    ensures Inv(Apply(w, Lookup(id, key)))
  {
    LookupHolds(w.cache, w.accepted, key);
  }

  lemma InsertKeeps(w: World, id: nat)
    requires Inv(w) && Enabled(w, Insert(id))
    ensures Inv(Apply(w, Insert(id)))
  {
    var after := Apply(w, Insert(id));
    var x := w.threads[id];
    assert ThreadOk(w, x);
    InsertHolds(w.cache, w.accepted, x.key, x.resolved);
    EvictedIsPart(w.cache);
    EvictedObserves(w.cache);
    forall other | other in after.threads ensures ThreadOk(after, after.threads[other]) {
      if other != id { assert ThreadOk(w, w.threads[other]); }
    }
  }

  lemma EvictedObserves(c: Cache)
    ensures Evicted(c).observation == c.observation
    decreases |c.order|
  {
    if |c.entries| >= CAPACITY && c.order != [] {
      EvictedObserves(c.(entries := c.entries - {c.order[0]}, order := c.order[1..]));
    }
  }

  lemma StepKeeps(w: World, step: Step)
    requires Inv(w) && Enabled(w, step)
    ensures Inv(Apply(w, step))
  {
    match step
    case Lookup(id, key) => LookupKeeps(w, id, key);
    case Compute(id, decision) =>
      var after := Apply(w, step);
      forall other | other in after.threads ensures ThreadOk(after, after.threads[other]) {
        if other != id { assert ThreadOk(w, w.threads[other]); }
      }
    case Insert(id) => InsertKeeps(w, id);
  }

  lemma {:induction false} RunKeeps(w: World, steps: seq<Step>)
    requires Inv(w) && CanRun(w, steps)
    ensures Inv(Run(w, steps))
    decreases |steps|
  {
    if steps != [] {
      StepKeeps(w, steps[0]);
      RunKeeps(Apply(w, steps[0]), steps[1..]);
    }
  }

  // Main results

  /** However threads interleave, a hit gives what an uncached resolution of the identical key came to before. */
  lemma HitsAreGenuine(steps: seq<Step>, key: Key)
    requires CanRun(INITIAL, steps) && Found(Run(INITIAL, steps).cache, key).Some?
    ensures var w := Run(INITIAL, steps);
      var r := Found(w.cache, key).value;
      && r.cacheHit && (key, r.decision) in w.computed
      && w.newest == Some(key.observation)
      && key in w.cache.entries && r == w.cache.entries[key].(cacheHit := true)
  {
    RunKeeps(INITIAL, steps);
    var w := Run(INITIAL, steps);
    assert Genuine(w, key, w.cache.entries[key]);
    EntriesAreQueued(w.cache, Recent(w.accepted));
  }

  /** Whatever a thread returns was computed for the key it asked with. */
  lemma AnswersAreGenuine(steps: seq<Step>, id: nat)
    requires CanRun(INITIAL, steps) && id in Run(INITIAL, steps).threads
    requires Run(INITIAL, steps).threads[id].Returned? && Run(INITIAL, steps).threads[id].answer.Some?
    ensures var w := Run(INITIAL, steps);
      (w.threads[id].key, w.threads[id].answer.value.decision) in w.computed
  {
    RunKeeps(INITIAL, steps);
    assert ThreadOk(Run(INITIAL, steps), Run(INITIAL, steps).threads[id]);
  }

  /** Entries and queue hold the same distinct keys, at most 256, all of the newest observation: the most recent
      accepted insertions, oldest first. */
  lemma CacheIsRecent(steps: seq<Step>)
    requires CanRun(INITIAL, steps)
    ensures var w := Run(INITIAL, steps);
      var recent := Recent(w.accepted);
      && |w.cache.entries| == |w.cache.order| == |recent| <= CAPACITY
      && Distinct(w.cache.order) && w.cache.entries.Keys == Elements(w.cache.order)
      && w.cache.order == KeysOf(recent)
      && (forall i :: 0 <= i < |recent| ==>
            recent[i].key in w.cache.entries && w.cache.entries[recent[i].key] == recent[i].resolved
            && w.newest == Some(recent[i].key.observation))
  {
    RunKeeps(INITIAL, steps);
    var w := Run(INITIAL, steps);
    EntriesAreQueued(w.cache, Recent(w.accepted));
    forall i | 0 <= i < |Recent(w.accepted)| ensures HoldsOne(w.cache, Recent(w.accepted)[i]) {}
  }
}
