/** What switches and readers come to over whole runs (crates/ferrum2-core/src/selector.rs). */
module SelectorRuns {
  import opened Prelude
  import opened Selectors

  lemma {:induction false} RunPrefix(w: World, steps: seq<Step>, k: nat)
    requires CanRun(w, steps) && k < |steps|
    ensures CanRun(w, steps[..k]) && CanRun(w, steps[..k + 1])
    ensures var before := Run(w, steps[..k]);
      Sound(before) && Enabled(before, steps[k]) && Run(w, steps[..k + 1]) == Apply(before, steps[k])
    decreases k
  {
    if k > 0 {
      RunPrefix(Apply(w, steps[0]), steps[1..], k - 1);
      assert steps[1..][..k - 1] == steps[..k][1..] && steps[1..][..k] == steps[..k + 1][1..];
    } else {
      assert steps[..1][1..] == [];
    }
  }

  /** The same for a run and the steps it consists of, step by step from its end. */
  lemma LastStep(selected: seq<nat>, steps: seq<Step>)
    requires CanRun(Initial(selected), steps) && steps != []
    ensures var n := |steps| - 1;
      && CanRun(Initial(selected), steps[..n])
      && var before := Run(Initial(selected), steps[..n]);
         Sound(before) && Enabled(before, steps[n]) && Run(Initial(selected), steps) == Apply(before, steps[n])
  {
    RunPrefix(Initial(selected), steps, |steps| - 1);
    assert steps[..|steps|] == steps;
  }

  // A finished switch

  /** Between the switch's beginning and the end of the run its member was, at some point, the one selected. */
  ghost predicate TookEffect(selected: seq<nat>, steps: seq<Step>, id: nat, selector: nat, member: nat) {
    exists b, k ::
      0 <= b < k <= |steps| && steps[b] == Begin(id, selector, member)
      && SelectedAt(selected, steps, k, selector, member)
  }

  ghost predicate SelectedAt(selected: seq<nat>, steps: seq<Step>, k: nat, selector: nat, member: nat)
    requires k <= |steps|
  {
    && CanRun(Initial(selected), steps[..k])
    && var w := Run(Initial(selected), steps[..k]); selector < |w.selected| && w.selected[selector] == member
  }

  /** A step begins a switch, advances it, or leaves it alone. */
  lemma WriterAfter(w: World, step: Step, id: nat)
    requires Sound(w) && Enabled(w, step) && id in Apply(w, step).writers
    ensures var x := Apply(w, step).writers[id];
      || (step == Begin(id, x.selector, x.member) && x.pc == Peek && id !in w.writers)
      || (&& id in w.writers && w.writers[id].selector == x.selector && w.writers[id].member == x.member
          && !(step.Begin? && step.id == id) && (step == Advance(id) || w.writers[id].pc == x.pc))
  {
  }

  lemma {:induction false} BegunOnce(selected: seq<nat>, steps: seq<Step>, id: nat) returns (b: nat)
    requires CanRun(Initial(selected), steps) && id in Run(Initial(selected), steps).writers
    ensures b < |steps|
    ensures var x := Run(Initial(selected), steps).writers[id]; steps[b] == Begin(id, x.selector, x.member)
    decreases |steps|
  {
    LastStep(selected, steps);
    var n := |steps| - 1;
    WriterAfter(Run(Initial(selected), steps[..n]), steps[n], id);
    if steps[n].Begin? && steps[n].id == id {
      b := n;
    } else {
      b := BegunOnce(selected, steps[..n], id);
    }
  }

  lemma EffectKept(selected: seq<nat>, steps: seq<Step>, more: seq<Step>, id: nat, selector: nat, member: nat)
    requires |steps| <= |more| && more[..|steps|] == steps && TookEffect(selected, steps, id, selector, member)
    ensures TookEffect(selected, more, id, selector, member)
  {
    var b, k :|
      0 <= b < k <= |steps| && steps[b] == Begin(id, selector, member)
      && SelectedAt(selected, steps, k, selector, member);
    assert more[..k] == steps[..k] && more[b] == steps[b];
    assert SelectedAt(selected, more, k, selector, member);
  }

  predicate Through(pc: Pc) {
    pc.Deliver? || pc.Done?
  }

  /** The step that takes a switch through finds its member selected. */
  lemma ThroughFindsSelected(w: World, id: nat)
    requires Inv(w) && Enabled(w, Advance(id)) && !Through(w.writers[id].pc)
    requires Through(AdvanceWriter(w, id).writers[id].pc)
    ensures w.selected[w.writers[id].selector] == w.writers[id].member
  {
    if w.writers[id].pc.Unlock? {
      HolderPhase(w, id);
    }
  }

  lemma JustThrough(selected: seq<nat>, steps: seq<Step>, id: nat)
    requires CanRun(Initial(selected), steps) && id in Run(Initial(selected), steps).writers
    requires var w := Run(Initial(selected), steps);
      && Enabled(w, Advance(id)) && Sound(w) && !Through(w.writers[id].pc)
      && Through(AdvanceWriter(w, id).writers[id].pc)
    ensures var x := Run(Initial(selected), steps).writers[id]; TookEffect(selected, steps, id, x.selector, x.member)
  {
    var x := Run(Initial(selected), steps).writers[id];
    RunKeeps(Initial(selected), steps);
    ThroughFindsSelected(Run(Initial(selected), steps), id);
    var b := BegunOnce(selected, steps, id);
    assert steps[..|steps|] == steps;
    assert SelectedAt(selected, steps, |steps|, x.selector, x.member);
  }

  /** A switch that is through did take effect while it ran. */
  lemma {:induction false} DoneTookEffect(selected: seq<nat>, steps: seq<Step>, id: nat)
    requires CanRun(Initial(selected), steps) && id in Run(Initial(selected), steps).writers
    requires Through(Run(Initial(selected), steps).writers[id].pc)
    ensures var x := Run(Initial(selected), steps).writers[id]; TookEffect(selected, steps, id, x.selector, x.member)
    decreases |steps|
  {
    LastStep(selected, steps);
    var n := |steps| - 1;
    var before, x := Run(Initial(selected), steps[..n]), Run(Initial(selected), steps).writers[id];
    WriterAfter(before, steps[n], id);
    if Through(before.writers[id].pc) {
      DoneTookEffect(selected, steps[..n], id);
    } else {
      JustThrough(selected, steps[..n], id);
    }
    EffectKept(selected, steps[..n], steps, id, x.selector, x.member);
  }

  // A switch on its own

  function Advances(id: nat, n: nat): seq<Step> {
    seq(n, _ => Advance(id))
  }

  /** Steps a switch on its own has left. */
  function Left(w: World, x: Writer): nat
    requires x.selector < |w.selected|
  {
    match x.pc
    case Peek => if w.selected[x.selector] == x.member then 1 else 10
    case AwaitLock => 9
    case LoadGeneration => 8
    case Exchange(_) => 7
    case Check(_) => 6
    case Store(_) => 5
    case Finish(_, _) => 4
    case Prepare(_) => 3
    case Unlock(_) => 2
    case Deliver => 1
    case Done => 0
  }

  /** Where a switch of `start`, begun with the lock free and run alone, has come. */
  ghost predicate Alone(start: World, w: World, id: nat, selector: nat, member: nat) {
    && Inv(start) && start.lock == None && selector < |start.selected| && Sound(w)
    && id in w.writers && w.writers[id].selector == selector && w.writers[id].member == member
    && var after := start.selected[selector := member];
       var g := start.generation;
       match w.writers[id].pc
       case Peek =>
         w.selected == start.selected && w.effective == start.effective && w.generation == g && w.lock == None
       case AwaitLock => Untouched(start, w, selector, member) && w.generation == g && w.lock == None
       case LoadGeneration => Untouched(start, w, selector, member) && w.generation == g
       case Exchange(h) => Untouched(start, w, selector, member) && w.generation == g == h
       case Check(h) => Untouched(start, w, selector, member) && h == g
       case Store(h) => Untouched(start, w, selector, member) && h == g
       case Finish(h, changed) => Switched(start, w, after) && h == g && changed
       case Prepare(h) => Switched(start, w, after) && h == g && w.generation == g + 2
       case Unlock(changed) => Switched(start, w, after) && w.generation == g + 2 && changed
       case Deliver => Switched(start, w, after) && w.generation == g + 2 && w.lock == None
       case Done =>
         && w.lock == None && w.selected == after
         && w.effective == start.effective + (if after != start.selected then 1 else 0)
         && w.generation == g + (if after != start.selected then 2 else 0)
  }

  ghost predicate Untouched(start: World, w: World, selector: nat, member: nat)
    requires selector < |start.selected|
  {
    w.selected == start.selected && w.effective == start.effective && start.selected[selector] != member
  }

  ghost predicate Switched(start: World, w: World, after: seq<nat>) {
    w.selected == after != start.selected && w.effective == start.effective + 1
  }

  lemma AloneAdvances(start: World, w: World, id: nat, selector: nat, member: nat)
    requires Alone(start, w, id, selector, member) && w.writers[id].pc != Done
    ensures Enabled(w, Advance(id))
    ensures var next := Apply(w, Advance(id));
      Alone(start, next, id, selector, member) && Left(next, next.writers[id]) == Left(w, w.writers[id]) - 1
  {
    var after := start.selected[selector := member];
    assert after[selector] == member;
    if start.selected[selector] == member {
      assert after == start.selected;
    }
    assert start.generation % 2 == 0;
  }

  lemma {:induction false} AloneFinishes(start: World, w: World, id: nat, selector: nat, member: nat)
    requires Alone(start, w, id, selector, member)
    ensures var steps := Advances(id, Left(w, w.writers[id]));
      && CanRun(w, steps)
      && var end := Run(w, steps);
         Alone(start, end, id, selector, member) && end.writers[id].pc == Done
    decreases Left(w, w.writers[id])
  {
    var n := Left(w, w.writers[id]);
    if w.writers[id].pc != Done {
      AloneAdvances(start, w, id, selector, member);
      AloneFinishes(start, Apply(w, Advance(id)), id, selector, member);
      assert Advances(id, n)[1..] == Advances(id, n - 1);
    }
  }

  /** A switch begun with the lock free, and run alone, ends with its member selected and all else as it was; it counts
      as effective exactly if that is a change. */
  lemma SwitchAlone(selected: seq<nat>, steps: seq<Step>, id: nat, selector: nat, member: nat)
    requires CanRun(Initial(selected), steps)
    requires var w := Run(Initial(selected), steps); w.lock == None && Enabled(w, Begin(id, selector, member))
    ensures var w := Run(Initial(selected), steps);
      var n := if w.selected[selector] == member then 1 else 10;
      && Sound(w)
      && var begun := Apply(w, Begin(id, selector, member));
         && CanRun(begun, Advances(id, n))
         && var end := Run(begun, Advances(id, n));
            && id in end.writers && end.writers[id].pc == Done && end.lock == None
            && end.selected == w.selected[selector := member]
            && end.effective == w.effective + (if w.selected[selector] != member then 1 else 0)
            && end.generation == w.generation + (if w.selected[selector] != member then 2 else 0)
  {
    RunKeeps(Initial(selected), steps);
    var w := Run(Initial(selected), steps);
    var begun := Apply(w, Begin(id, selector, member));
    AloneFinishes(w, begun, id, selector, member);
    assert w.selected[selector := member][selector] == member;
    if w.selected[selector] == member {
      assert w.selected[selector := member] == w.selected;
    }
  }

  // What a reader loads

  /** By then the reader has read the generation a first time. */
  ghost predicate Begins(selected: seq<nat>, steps: seq<Step>, id: nat, k: nat)
    requires k <= |steps|
  {
    && CanRun(Initial(selected), steps[..k])
    && var w := Run(Initial(selected), steps[..k]); id in w.readers && w.readers[id].before.Some?
  }

  /** A load puts on record what is selected at that moment, and it stays there. */
  lemma {:induction false} LoadsAreSeen(selected: seq<nat>, steps: seq<Step>, id: nat, k: nat, selector: nat)
    requires CanRun(Initial(selected), steps) && k < |steps| && steps[k] == LoadSelected(id, selector)
    requires Begins(selected, steps, id, k)
    ensures id in Run(Initial(selected), steps).readers
    ensures Run(Initial(selected), steps).readers[id].before.Some?
    ensures var moment := Run(Initial(selected), steps[..k]);
      && selector < |moment.selected|
      && (selector, moment.selected[selector]) in Run(Initial(selected), steps).readers[id].seen
    decreases |steps|
  {
    LastStep(selected, steps);
    var n := |steps| - 1;
    if k == n {
      var w, x := Run(Initial(selected), steps[..n]), Run(Initial(selected), steps).readers[id];
      assert x.seen[|x.seen| - 1] == (selector, w.selected[selector]);
    } else {
      assert steps[..n][..k] == steps[..k];
      LoadsAreSeen(selected, steps[..n], id, k, selector);
    }
  }

  /** A reader that meets the same generation before and after has loaded, each time, what was selected at both ends. */
  lemma LoadsAreConsistent(selected: seq<nat>, steps: seq<Step>, id: nat, k: nat, selector: nat)
    requires CanRun(Initial(selected), steps) && k < |steps| && steps[k] == LoadSelected(id, selector)
    requires Begins(selected, steps, id, k) && id in Run(Initial(selected), steps).readers
    requires var r := Run(Initial(selected), steps).readers[id];
      r.before.Some? && r.after.Some? && r.before.value.0 == r.after.value.0
    ensures var moment, r := Run(Initial(selected), steps[..k]), Run(Initial(selected), steps).readers[id];
      && selector < |moment.selected| && selector < |r.after.value.1|
      && moment.selected[selector] == r.after.value.1[selector] && r.before.value.1 == r.after.value.1
  {
    LoadsAreSeen(selected, steps, id, k, selector);
    SameGenerationCoexisted(selected, steps, id);
    var r := Run(Initial(selected), steps).readers[id];
    var moment := Run(Initial(selected), steps[..k]);
    var i :| 0 <= i < |r.seen| && r.seen[i] == (selector, moment.selected[selector]);
  }

  // What a subscription waits for

  ghost predicate HasBaseline(w: World, id: nat, baseline: nat) {
    id < w.changes.created && (id in w.changes.live ==> w.changes.live[id].change.baseline == baseline)
  }

  lemma StepKeepsBaseline(w: World, step: Step, id: nat, baseline: nat)
    requires Sound(w) && Enabled(w, step) && HasBaseline(w, id, baseline)
    ensures HasBaseline(Apply(w, step), id, baseline)
  {
  }

  lemma {:induction false} RunKeepsBaseline(w: World, steps: seq<Step>, id: nat, baseline: nat)
    requires CanRun(w, steps) && HasBaseline(w, id, baseline)
    ensures HasBaseline(Run(w, steps), id, baseline)
    decreases |steps|
  {
    if steps != [] {
      StepKeepsBaseline(w, steps[0], id, baseline);
      RunKeepsBaseline(Apply(w, steps[0]), steps[1..], id, baseline);
    }
  }

  /** However long after, polling a subscription not yet completed is ready exactly if a generation above the given one
      was published. */
  ghost predicate WaitsFrom(w: World, id: nat, generation: nat, waker: Generations.Waker) {
    id in w.changes.live && w.changes.live[id].change.completed.None? ==>
      var polled := Generations.AfterPoll(w.changes.signal, w.changes.live[id].change, waker).1;
      polled.completed.Some? <==> SignalOf(w) > generation
  }

  lemma WaitsFromBaseline(w: World, steps: seq<Step>, id: nat, waker: Generations.Waker)
    requires Inv(w) && CanRun(w, steps) && id in w.changes.live && id < w.changes.created
    ensures WaitsFrom(Run(w, steps), id, w.changes.live[id].change.baseline, waker)
  {
    RunKeeps(w, steps);
    var end := Run(w, steps);
    if id in end.changes.live {
      RunKeepsBaseline(w, steps, id, w.changes.live[id].change.baseline);
      assert OriginOk(end, id);
    }
  }

  /** A subscription waits for a switch after the moment it is made. */
  lemma SubscriptionWaits(selected: seq<nat>, steps: seq<Step>, more: seq<Step>, waker: Generations.Waker)
    requires CanRun(Initial(selected), steps) && Enabled(Run(Initial(selected), steps), Subscribe)
    requires Sound(Run(Initial(selected), steps)) && CanRun(Apply(Run(Initial(selected), steps), Subscribe), more)
    ensures var w := Run(Initial(selected), steps);
      WaitsFrom(Run(Apply(w, Subscribe), more), w.changes.created, SignalOf(w), waker)
  {
    var w := Run(Initial(selected), steps);
    RunKeeps(Initial(selected), steps);
    StepKeeps(w, Subscribe);
    WaitsFromBaseline(Apply(w, Subscribe), more, w.changes.created, waker);
  }

  /** One made from an earlier read waits for a switch after that read. */
  lemma EarlierSubscriptionWaits(
      selected: seq<nat>, steps: seq<Step>, reader: nat, more: seq<Step>, waker: Generations.Waker)
    requires CanRun(Initial(selected), steps) && Enabled(Run(Initial(selected), steps), SubscribeFrom(reader))
    requires Sound(Run(Initial(selected), steps))
    requires CanRun(Apply(Run(Initial(selected), steps), SubscribeFrom(reader)), more)
    ensures var w := Run(Initial(selected), steps);
      WaitsFrom(Run(Apply(w, SubscribeFrom(reader)), more), w.changes.created, w.readers[reader].before.value.0, waker)
  {
    var w := Run(Initial(selected), steps);
    RunKeeps(Initial(selected), steps);
    StepKeeps(w, SubscribeFrom(reader));
    WaitsFromBaseline(Apply(w, SubscribeFrom(reader)), more, w.changes.created, waker);
  }
}
