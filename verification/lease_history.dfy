/** What admissions, retirements and closes leave in the tables (crates/ferrum2-dashboard/src/connection.rs). */
module LeaseHistory {
  import opened Prelude
  import opened Registries
  import opened Leases

  // The history

  ghost function HistoryOf(w: World, g: nat): seq<Row>
    requires g < |w.generations|
  {
    w.generations[g].registry.history
  }

  /** The rows retired in a generation, in order, whatever became of them. */
  ghost function RetiredIn(w: World, steps: seq<Step>, g: nat): seq<Row>
    requires CanRun(w, steps)
    decreases |steps|
  {
    if steps == [] then []
    else
      (match steps[0]
       case Retire(id) =>
         if w.leases[id].tracked && w.leases[id].generation == g then [Row(w.clock, id)] else []
       case _ => [])
      + RetiredIn(Apply(w, steps[0]), steps[1..], g)
  }

  /** The history is the newest stretch of what was retired, and what it lacks is five minutes old or has 512 newer
      rows. */
  ghost predicate IsRecent(history: seq<Row>, retired: seq<Row>, clock: nat) {
    exists k: nat :: RecentFrom(history, retired, clock, k)
  }

  ghost predicate RecentFrom(history: seq<Row>, retired: seq<Row>, clock: nat, k: nat) {
    && k <= |retired| && history == retired[k..]
    && forall i :: 0 <= i < k ==> retired[i].at + 300_000 <= clock || |retired| - i > 512
  }

  lemma RecentPruned(history: seq<Row>, retired: seq<Row>, now: nat, clock: nat)
    requires IsRecent(history, retired, clock) && now <= clock
    ensures IsRecent(Pruned(history, now), retired, clock)
  {
    var k: nat :| RecentFrom(history, retired, clock, k);
    var m := PrunedFrom(history, now);
    forall i | 0 <= i < k + m ensures retired[i].at + 300_000 <= clock || |retired| - i > 512 {
      if i >= k {
        assert history[i - k] == retired[i];
      }
    }
    assert retired[k + m..] == history[m..];
    assert RecentFrom(Pruned(history, now), retired, clock, k + m);
  }

  lemma RecentArchived(history: seq<Row>, retired: seq<Row>, row: Row)
    requires IsRecent(history, retired, row.at)
    ensures IsRecent(Archived(history, row), retired + [row], row.at)
  {
    RecentPruned(history, retired, row.at, row.at);
    var young := Pruned(history, row.at);
    var k: nat :| RecentFrom(young, retired, row.at, k);
    var longer := retired + [row];
    if |young| == HISTORY_LIMIT {
      assert young[1..] + [row] == longer[k + 1..];
      assert RecentFrom(Archived(history, row), longer, row.at, k + 1);
    } else {
      assert young + [row] == longer[k..];
      assert RecentFrom(Archived(history, row), longer, row.at, k);
    }
  }

  lemma RecentLater(history: seq<Row>, retired: seq<Row>, clock: nat, later: nat)
    requires IsRecent(history, retired, clock) && clock <= later
    ensures IsRecent(history, retired, later)
  {
    var k: nat :| RecentFrom(history, retired, clock, k);
    assert RecentFrom(history, retired, later, k);
  }

  /** No other step touches a history, and none touches that of another generation. */
  lemma HistoryElsewhereKept(w: World, step: Step, g: nat)
    requires Sound(w) && Enabled(w, step) && g < |w.generations|
    ensures g < |Apply(w, step).generations|
    ensures HistoryOf(Apply(w, step), g) ==
      match step
      case Retire(id) =>
        if w.leases[id].tracked && w.leases[id].generation == g then Archived(HistoryOf(w, g), Row(w.clock, id))
        else HistoryOf(w, g)
      case Sample(sampled, now) => if sampled == g then Pruned(HistoryOf(w, g), now) else HistoryOf(w, g)
      case _ => HistoryOf(w, g)
    ensures w.clock <= Apply(w, step).clock
    ensures !step.Tick? ==> Apply(w, step).clock == w.clock
  {
  }

  lemma RetiredInOne(w: World, step: Step, g: nat)
    requires Sound(w) && Enabled(w, step) && CanRun(w, [step])
    ensures RetiredIn(w, [step], g) ==
      if step.Retire? && w.leases[step.id].tracked && w.leases[step.id].generation == g then [Row(w.clock, step.id)]
      else []
  {
    assert [step][1..] == [];
    assert RetiredIn(Apply(w, step), [], g) == [];
  }

  lemma RecentStep(w: World, step: Step, g: nat, retired: seq<Row>)
    requires Sound(w) && Enabled(w, step) && g < |w.generations| && IsRecent(HistoryOf(w, g), retired, w.clock)
    requires CanRun(w, [step])
    ensures g < |Apply(w, step).generations|
    ensures IsRecent(HistoryOf(Apply(w, step), g), retired + RetiredIn(w, [step], g), Apply(w, step).clock)
  {
    HistoryElsewhereKept(w, step, g);
    RetiredInOne(w, step, g);
    var more := RetiredIn(w, [step], g);
    assert retired + [] == retired;
    if step.Retire? && more != [] {
      RecentArchived(HistoryOf(w, g), retired, Row(w.clock, step.id));
    } else if step.Sample? && step.sampled == g {
      RecentPruned(HistoryOf(w, g), retired, step.now, w.clock);
    } else {
      RecentLater(HistoryOf(w, g), retired, w.clock, Apply(w, step).clock);
    }
  }

  lemma RetiredInFirst(w: World, steps: seq<Step>, g: nat)
    requires CanRun(w, steps) && steps != []
    ensures CanRun(w, [steps[0]])
    ensures RetiredIn(w, steps, g) == RetiredIn(w, [steps[0]], g) + RetiredIn(Apply(w, steps[0]), steps[1..], g)
  {
    assert [steps[0]][1..] == [];
    assert CanRun(Apply(w, steps[0]), []);
  }

  ghost predicate Recent(w: World, g: nat, retired: seq<Row>) {
    g < |w.generations| && IsRecent(HistoryOf(w, g), retired, w.clock)
  }

  lemma {:induction false} RecentRun(w: World, steps: seq<Step>, g: nat, retired: seq<Row>)
    requires CanRun(w, steps) && Recent(w, g, retired)
    ensures Recent(Run(w, steps), g, retired + RetiredIn(w, steps, g))
    decreases |steps|
  {
    if steps != [] {
      var next := Apply(w, steps[0]);
      RetiredInFirst(w, steps, g);
      RecentStep(w, steps[0], g, retired);
      var first, rest := RetiredIn(w, [steps[0]], g), RetiredIn(next, steps[1..], g);
      assert Recent(next, g, retired + first);
      RecentRun(next, steps[1..], g, retired + first);
      assert retired + first + rest == retired + (first + rest);
    } else {
      assert retired + [] == retired;
    }
  }

  /** Over any run a generation's history lacks only rows that are five minutes old or have 512 newer ones. */
  lemma HistoryIsRecent(w: World, steps: seq<Step>, g: nat)
    requires Sound(w) && CanRun(w, steps) && g < |w.generations| && HistoryOf(w, g) == []
    ensures g < |Run(w, steps).generations|
    ensures IsRecent(HistoryOf(Run(w, steps), g), RetiredIn(w, steps, g), Run(w, steps).clock)
  {
    assert RecentFrom([], [], w.clock, 0);
    RecentRun(w, steps, g, []);
    assert [] + RetiredIn(w, steps, g) == RetiredIn(w, steps, g);
  }

  /** Retiring a tracked lease adds its row and keeps every other that has to stay, in order. */
  lemma RetireKeepsOthers(w: World, id: nat)
    requires Reachable(w) && Enabled(w, Retire(id)) && w.leases[id].tracked
    ensures var g := w.leases[id].generation;
      && g < |w.generations| && g < |Apply(w, Retire(id)).generations|
      && var before, after := HistoryOf(w, g), HistoryOf(Apply(w, Retire(id)), g);
         && (forall x :: x in after <==> x == Row(w.clock, id) || Stays(before, x, w.clock))
         && exists k :: 0 <= k <= |before| && after == before[k..] + [Row(w.clock, id)]
  {
    ReachableOk(w);
    var g := w.leases[id].generation;
    assert GenerationOk(w, g);
    forall x | x in HistoryOf(w, g) ensures x.at <= w.clock && x.id != id { assert RowOk(w.leases, g, x, w.clock); }
    ArchivedExactly(HistoryOf(w, g), Row(w.clock, id));
  }

  // Admission and cancellation

  /** A lease gets a row exactly while fewer than 4096 tracked ones of its generation are unretired. */
  lemma AdmissionTracks(w: World, id: nat)
    requires Reachable(w) && Enabled(w, Admit(id))
    ensures var after := Apply(w, Admit(id));
      var g := w.leases[id].generation;
      && id < |after.leases| && g < |w.generations| && g < |after.generations|
      && after.leases[id].phase.Active? && after.leases[id].generation == g
      && (after.leases[id].tracked <==> |LiveIn(w.leases, g)| < 4096)
      && (id in after.generations[g].registry.cancellation <==> |w.generations[g].registry.cancellation| < 65_536)
  {
    ReachableOk(w);
    assert GenerationOk(w, w.leases[id].generation);
  }

  /** A lease stays addressable from its admission to its retirement. */
  lemma AddressableUntilRetired(w: World, step: Step, g: nat, id: nat)
    requires Reachable(w) && Enabled(w, step) && g < |w.generations| && step != Admit(id)
    ensures g < |Apply(w, step).generations|
    ensures id in Apply(w, step).generations[g].registry.cancellation <==>
      id in w.generations[g].registry.cancellation && !(step == Retire(id) && w.leases[id].generation == g)
  {
  }

  /** Closing by name cancels exactly the named leases of the current generation that have a row or an address. */
  lemma CloseCancelsNamed(w: World, ids: seq<nat>, id: nat)
    requires Reachable(w) && id < |w.leases|
    ensures var after := Apply(w, Close(ids));
      var r := w.generations[Current(w)].registry;
      && |after.leases| == |w.leases| && after.generations == w.generations
      && (IsCancelled(after, id) <==>
            IsCancelled(w, id)
            || (id in ids && (IsLive(w.leases[id], Current(w)) || id in r.cancellation)))
  {
    ReachableOk(w);
    assert GenerationOk(w, Current(w));
  }
}
