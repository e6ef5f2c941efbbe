/** What is stored, and for how long it is found (crates/ferrum2-net/src/resolver.rs). */
module InterfaceRuns {
  import opened Prelude
  import opened Orders
  import opened InterfaceCache

  /** The newest of the observations looked up in a run. */
  ghost predicate IsNewest(steps: seq<Step>, newest: Option<nat>) {
    match newest
    case None => forall s :: s in steps ==> !s.Lookup?
    case Some(n) =>
      && (exists s :: s in steps && s.Lookup? && s.key.observation == n)
      && forall s :: s in steps && s.Lookup? ==> s.key.observation <= n
  }

  ghost predicate NewestFrom(before: Option<nat>, steps: seq<Step>, after: Option<nat>) {
    && (before.Some? ==> after.Some? && before.value <= after.value)
    && (forall s :: s in steps && s.Lookup? ==> after.Some? && s.key.observation <= after.value)
    && (after != before ==> IsNewest(steps, after))
  }

  lemma {:induction false} NewestOfRun(w: World, steps: seq<Step>)
    requires CanRun(w, steps)
    ensures NewestFrom(w.newest, steps, Run(w, steps).newest)
    decreases |steps|
  {
    if steps != [] {
      NewestOfRun(Apply(w, steps[0]), steps[1..]);
      forall s ensures s in steps <==> s == steps[0] || s in steps[1..] { assert steps == [steps[0]] + steps[1..]; }
    }
  }

  lemma NewestIsLookedUp(steps: seq<Step>)
    requires CanRun(INITIAL, steps)
    ensures IsNewest(steps, Run(INITIAL, steps).newest)
  {
    NewestOfRun(INITIAL, steps);
  }

  /** An insertion for the newest observation is stored, unless the key already is, and pushes out only the oldest entry
      of a full cache; any other insertion changes nothing. */
  lemma InsertStores(steps: seq<Step>, id: nat)
    requires CanRun(INITIAL, steps) && Enabled(Run(INITIAL, steps), Insert(id))
    ensures var w := Run(INITIAL, steps);
      var x, after := w.threads[id], Apply(w, Insert(id)).cache;
      && IsNewest(steps, w.newest)
      && if w.newest != Some(x.key.observation) || x.key in w.cache.entries then after == w.cache
         else
           && x.key in after.entries && after.entries[x.key] == x.resolved
           && Found(after, x.key) == Some(x.resolved.(cacheHit := true))
           && after.observation == w.cache.observation
           && (if |w.cache.order| < 256 then after.order == w.cache.order + [x.key]
               else w.cache.order != [] && after.order == w.cache.order[1..] + [x.key])
           && forall other :: other in after.order && other != x.key ==>
                && other in w.cache.entries && other in after.entries
                && after.entries[other] == w.cache.entries[other]
  {
    NewestIsLookedUp(steps);
    RunKeeps(INITIAL, steps);
    var w := Run(INITIAL, steps);
    var x, recent := w.threads[id], Recent(w.accepted);
    EntriesAreQueued(w.cache, recent);
    EvictedOnce(w.cache, recent);
    EvictedIsPart(w.cache);
    EvictedObserves(w.cache);
    forall other | other in w.cache.order ensures other in w.cache.entries { assert other in Elements(w.cache.order); }
    if w.cache.order != [] {
      forall other | other in w.cache.order[1..] ensures other != w.cache.order[0] && other in w.cache.order {
        var i :| 0 <= i < |w.cache.order[1..]| && w.cache.order[1..][i] == other;
        assert w.cache.order[0] != w.cache.order[i + 1];
      }
    }
  }

  function Insertions(steps: seq<Step>): nat {
    if steps == [] then 0 else (if steps[0].Insert? then 1 else 0) + Insertions(steps[1..])
  }

  /** While no newer observation is looked up, accepted insertions only accumulate, at most one a step. */
  lemma {:induction false} AcceptedGrows(w: World, steps: seq<Step>)
    requires Inv(w) && CanRun(w, steps) && Run(w, steps).newest == w.newest
    ensures var after := Run(w, steps).accepted;
      |w.accepted| <= |after| <= |w.accepted| + Insertions(steps) && after[..|w.accepted|] == w.accepted
    decreases |steps|
  {
    if steps != [] {
      var next := Apply(w, steps[0]);
      StepKeeps(w, steps[0]);
      NewestOfRun(next, steps[1..]);
      AcceptedGrows(next, steps[1..]);
    }
  }

  /** An entry among the last so many is found again with the same decision until so many more have been inserted as
      make 256, or a newer observation is looked up. */
  lemma StaysFound(first: seq<Step>, steps: seq<Step>, key: Key, place: nat)
    requires CanRun(INITIAL, first) && CanRun(Run(INITIAL, first), steps)
    requires var w := Run(INITIAL, first);
      && place < |w.cache.order| && w.cache.order[place] == key && Run(w, steps).newest == w.newest
      && |w.cache.order| - place + Insertions(steps) <= 256
    ensures var w := Run(INITIAL, first);
      && key in w.cache.entries
      && Found(Run(w, steps).cache, key) == Some(w.cache.entries[key].(cacheHit := true))
  {
    var w := Run(INITIAL, first);
    RunKeeps(INITIAL, first);
    RunKeeps(w, steps);
    AcceptedGrows(w, steps);
    var after := Run(w, steps);
    var recent, later := Recent(w.accepted), Recent(after.accepted);
    var j := StillRecent(w.accepted, after.accepted, place);
    assert HoldsOne(w.cache, recent[place]) && HoldsOne(after.cache, later[j]);
  }

  lemma StillRecent(accepted: seq<Insertion>, after: seq<Insertion>, place: nat) returns (j: nat)
    requires |accepted| <= |after| && after[..|accepted|] == accepted && place < |Recent(accepted)|
    requires |Recent(accepted)| - place + |after| - |accepted| <= 256
    ensures j < |Recent(after)| && Recent(after)[j] == Recent(accepted)[place]
  {
    var i := |accepted| - |Recent(accepted)| + place;
    assert accepted[i] == Recent(accepted)[place] && after[i] == after[..|accepted|][i];
    j := i - (|after| - |Recent(after)|);
  }
}
