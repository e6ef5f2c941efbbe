/**
 Switching selectors while others read them (crates/ferrum2-core/src/selector.rs).
 Each atomic access and each lock operation is one step, in a sequentially consistent order. Subscriptions live in the
 world of the generation signal, whose steps interleave with all others; a detached waker may be woken at any time. The
 generation is unbounded, so its wrap is not part of this model.
 */
module Selectors {
  import opened Prelude
  import Generations

  datatype Shape = Shape(tag: string, members: seq<string>)

  datatype SelectorError = UnknownSelector | UnknownMember

  function FirstTag(tags: seq<string>, tag: string): (r: Option<nat>)
    ensures r.None? <==> tag !in tags
    ensures r.Some? ==> r.value < |tags| && tags[r.value] == tag && tag !in tags[..r.value]
    decreases |tags|
  {
    if tags == [] then None
    else if tags[0] == tag then Some(0)
    else
      var rest := FirstTag(tags[1..], tag);
      assert rest.Some? ==> tags[..rest.value + 1] == [tags[0]] + tags[1..][..rest.value];
      if rest.Some? then Some(rest.value + 1) else None
  }

  function TagsOf(shapes: seq<Shape>): (r: seq<string>)
    ensures |r| == |shapes|
  {
    seq(|shapes|, i requires 0 <= i < |shapes| => shapes[i].tag)
  }

  /** The switch undone or done when its guard goes away. */
  class SelectorChange {
    const state: SelectorState
    const baseline: nat
    var changed: bool

    constructor (state: SelectorState, baseline: nat)
      ensures this.state == state && this.baseline == baseline && !changed
    {
      this.state, this.baseline, changed := state, baseline, false;
    }

    method MarkChanged()
      modifies this
      ensures changed
    {
      changed := true;
    }

    method Drop() returns (wakers: map<nat, Generations.Waker>)
      requires state.changes.generation == baseline
      modifies state`generation, state.changes
      ensures state.generation == state.changes.generation == baseline + if changed then 2 else 0
      ensures wakers == if changed then old(state.changes.subscribers) else map[]
      ensures state.changes.subscribers == if changed then map[] else old(state.changes.subscribers)
      ensures state.changes.next == old(state.changes.next)
    {
      var generation := baseline + if changed then 2 else 0;
      state.generation := generation;
      wakers := map[];
      if changed {
        wakers := state.changes.PrepareNotification(generation);
      }
    }
  }

  class SelectorState {
    const shapes: seq<Shape>
    var selected: seq<nat>
    var generation: nat
    const changes: Generations.GenerationSignal

    ghost predicate Valid()
      reads this, changes
    {
      && |selected| == |shapes|
      && (forall i :: 0 <= i < |shapes| ==> selected[i] < |shapes[i].members|)
      && generation % 2 == 0
      && changes.generation == generation
    }

    constructor (shapes: seq<Shape>, selected: seq<nat>)
      requires |selected| == |shapes| && forall i :: 0 <= i < |shapes| ==> selected[i] < |shapes[i].members|
      ensures Valid() && this.shapes == shapes && this.selected == selected && generation == 0 && fresh(changes)
    {
      this.shapes, this.selected, generation := shapes, selected, 0;
      changes := new Generations.GenerationSignal(0);
    }

    /** Uninterrupted, a switch to another member selects it, advances the generation by two and detaches every
        waiting waker; anything else leaves the state as it was. */
    method Switch(selectorTag: string, memberTag: string)
        returns (error: Option<SelectorError>, wakers: map<nat, Generations.Waker>)
      requires Valid()
      modifies this, changes
      ensures Valid()
      ensures var selector := FirstTag(TagsOf(shapes), selectorTag);
        if selector.None? then
          error == Some(UnknownSelector) && selected == old(selected) && generation == old(generation)
        else
          var member := FirstTag(shapes[selector.value].members, memberTag);
          if member.None? then
            error == Some(UnknownMember) && selected == old(selected) && generation == old(generation)
          else
            error == None && selected == old(selected)[selector.value := member.value]
            && generation == old(generation) + (if old(selected)[selector.value] == member.value then 0 else 2)
      ensures wakers == if generation == old(generation) then map[] else old(changes.subscribers)
      ensures changes.subscribers == if generation == old(generation) then old(changes.subscribers) else map[]
      ensures changes.next == old(changes.next)
    {
      wakers := map[];
      var selector := FirstTag(TagsOf(shapes), selectorTag);
      if selector.None? {
        return Some(UnknownSelector), wakers;
      }
      var member := FirstTag(shapes[selector.value].members, memberTag);
      if member.None? {
        return Some(UnknownMember), wakers;
      }
      if selected[selector.value] == member.value {
        return None, wakers;
      }
      var change := new SelectorChange(this, generation);
      generation := generation + 1;
      if selected[selector.value] != member.value {
        selected := selected[selector.value := member.value];
        change.MarkChanged();
      }
      wakers := change.Drop();
      error := None;
    }
  }

  // Any number of switches and readers, one atomic step at a time

  /** Where a switch is; `g` is the generation it started its change from. */
  datatype Pc =
    | Peek
    | AwaitLock
    | LoadGeneration
    | Exchange(g: nat)
    | Check(g: nat)
    | Store(g: nat)
    | Finish(g: nat, changed: bool)
    | Prepare(g: nat)
    | Unlock(changed: bool)
    | Deliver
    | Done

  datatype Writer = Writer(selector: nat, member: nat, pc: Pc)

  /** A reader between two generation reads; the selections in effect at each are kept along. */
  datatype Reader = Reader(before: Option<(nat, seq<nat>)>, seen: seq<(nat, nat)>, after: Option<(nat, seq<nat>)>)

  datatype World = World(
    generation: nat,
    lock: Option<nat>,
    selected: seq<nat>,
    effective: nat, // switches that changed a selection
    writers: map<nat, Writer>,
    readers: map<nat, Reader>,
    changes: Generations.World,
    origins: map<nat, seq<nat>> // what was selected when a subscription's baseline was the generation
  )

  datatype Step =
    | Begin(id: nat, selector: nat, member: nat)
    | Advance(writer: nat)
    | Open(id: nat)
    | ReadBefore(reader: nat)
    | LoadSelected(reader: nat, selector: nat)
    | ReadAfter(reader: nat)
    | Subscribe
    | SubscribeFrom(reader: nat)
    | Signal(step: Generations.Step)

  function Initial(selected: seq<nat>): World {
    World(0, None, selected, 0, map[], map[], Generations.Initial(0), map[])
  }

  function SignalOf(w: World): nat {
    w.changes.signal.generation
  }

  /** Polls, drops and wakes need no update lock. */
  predicate LockFree(step: Generations.Step) {
    step.Poll? || step.Drop? || step.Wake?
  }

  /** A blocked lock and a spinning load are steps that wait. */
  predicate Enabled(w: World, step: Step) {
    match step
    case Begin(id, selector, _) => id !in w.writers && selector < |w.selected|
    case Advance(id) =>
      id in w.writers && w.writers[id].pc != Done && (w.writers[id].pc == AwaitLock ==> w.lock == None)
    case Open(id) => id !in w.readers
    case ReadBefore(id) => id in w.readers && w.readers[id].before.None? && w.generation % 2 == 0
    case LoadSelected(id, selector) => id in w.readers && w.readers[id].after.None? && selector < |w.selected|
    case ReadAfter(id) =>
      id in w.readers && w.readers[id].before.Some? && w.readers[id].after.None? && w.generation % 2 == 0
    case Subscribe => w.lock == None
    case SubscribeFrom(id) => w.lock == None && id in w.readers && w.readers[id].before.Some?
    case Signal(inner) => LockFree(inner) && Generations.Enabled(w.changes, inner)
  }

  /** A subscription from a generation at which those were selected. */
  function Watching(w: World, baseline: nat, selected: seq<nat>): World {
    w.(changes := Generations.Apply(w.changes, Generations.Watch(baseline)),
       origins := w.origins[w.changes.created := selected])
  }

  function To(w: World, id: nat, pc: Pc): World
    requires id in w.writers
  {
    w.(writers := w.writers[id := w.writers[id].(pc := pc)])
  }

  function AdvanceWriter(w: World, id: nat): World
    requires id in w.writers && w.writers[id].selector < |w.selected|
  {
    var x := w.writers[id];
    match x.pc
    case Peek => To(w, id, if w.selected[x.selector] == x.member then Done else AwaitLock)
    case AwaitLock => To(w, id, LoadGeneration).(lock := Some(id))
    case LoadGeneration => if w.generation % 2 != 0 then w else To(w, id, Exchange(w.generation))
    case Exchange(g) =>
      if w.generation == g then To(w, id, Check(g)).(generation := g + 1) else To(w, id, LoadGeneration)
    case Check(g) => To(w, id, if w.selected[x.selector] != x.member then Store(g) else Finish(g, false))
    case Store(g) =>
      To(w, id, Finish(g, true)).(selected := w.selected[x.selector := x.member], effective := w.effective + 1)
    case Finish(g, changed) =>
      To(w, id, if changed then Prepare(g) else Unlock(false)).(generation := g + if changed then 2 else 0)
    case Prepare(g) =>
      To(w, id, Unlock(true)).(changes := Generations.Apply(w.changes, Generations.Publish(g + 2)))
    case Unlock(changed) => To(w, id, if changed then Deliver else Done).(lock := None)
    case Deliver => To(w, id, Done)
    case Done => w
  }

  function Apply(w: World, step: Step): World
    requires Enabled(w, step) && Sound(w)
  {
    match step
    case Begin(id, selector, member) => w.(writers := w.writers[id := Writer(selector, member, Peek)])
    case Advance(id) => AdvanceWriter(w, id)
    case Open(id) => w.(readers := w.readers[id := Reader(None, [], None)])
    case ReadBefore(id) =>
      w.(readers := w.readers[id := Reader(Some((w.generation, w.selected)), [], None)])
    case LoadSelected(id, selector) =>
      var r := w.readers[id];
      w.(readers := w.readers[id := r.(seen := r.seen + [(selector, w.selected[selector])])])
    case ReadAfter(id) =>
      w.(readers := w.readers[id := w.readers[id].(after := Some((w.generation, w.selected)))])
    case Subscribe => Watching(w, SignalOf(w), w.selected)
    case SubscribeFrom(id) => Watching(w, w.readers[id].before.value.0, w.readers[id].before.value.1)
    case Signal(inner) => w.(changes := Generations.Apply(w.changes, inner))
  }

  // What every run keeps

  predicate Sound(w: World) {
    forall id :: id in w.writers ==> w.writers[id].selector < |w.selected|
  }

  predicate HoldsLock(pc: Pc) {
    !pc.Peek? && !pc.AwaitLock? && !pc.Deliver? && !pc.Done?
  }

  predicate InsideChange(pc: Pc) {
    pc.Check? || pc.Store? || pc.Finish?
  }

  ghost predicate LockHeld(w: World) {
    && (w.lock.Some? ==> w.lock.value in w.writers)
    && forall id :: id in w.writers ==> (HoldsLock(w.writers[id].pc) <==> w.lock == Some(id))
  }

  /** What the two generations are while the lock holder is at its step. */
  ghost predicate Phase(w: World, x: Writer)
    requires x.selector < |w.selected|
  {
    match x.pc
    case Exchange(g) => w.generation == g == 2 * w.effective == SignalOf(w)
    case Check(g) => w.generation == g + 1 && g == 2 * w.effective == SignalOf(w)
    case Store(g) => w.generation == g + 1 && g == 2 * w.effective == SignalOf(w) && w.selected[x.selector] != x.member
    case Finish(g, changed) =>
      && w.generation == g + 1 && g == SignalOf(w) && w.selected[x.selector] == x.member
      && 2 * w.effective == g + if changed then 2 else 0
    case Prepare(g) =>
      w.generation == g + 2 == 2 * w.effective && SignalOf(w) == g && w.selected[x.selector] == x.member
    case Unlock(_) => w.generation == 2 * w.effective == SignalOf(w) && w.selected[x.selector] == x.member
    case _ => w.generation == 2 * w.effective == SignalOf(w)
  }

  ghost predicate Phased(w: World)
    requires LockHeld(w) && Sound(w)
  {
    if w.lock.Some? then Phase(w, w.writers[w.lock.value]) else w.generation == 2 * w.effective == SignalOf(w)
  }

  predicate Match(seen: seq<(nat, nat)>, selected: seq<nat>) {
    forall i :: 0 <= i < |seen| ==> seen[i].0 < |selected| && seen[i].1 == selected[seen[i].0]
  }

  /** While no switch took effect since its first read, a reader has seen only what is selected now. */
  ghost predicate ReaderOk(w: World, r: Reader) {
    && (r.before.Some? ==>
          var (g, first) := r.before.value;
          g % 2 == 0 && g <= 2 * w.effective && (g == 2 * w.effective ==> w.selected == first && Match(r.seen, first)))
    && (r.after.Some? ==>
          && r.before.Some?
          && (r.after.value.0 == r.before.value.0 ==>
                r.after.value.1 == r.before.value.1 && Match(r.seen, r.after.value.1)))
  }

  ghost predicate Readers(w: World) {
    forall id :: id in w.readers ==> ReaderOk(w, w.readers[id])
  }

  /** Until a switch takes effect, what a subscription's baseline stood for is selected still. */
  ghost predicate OriginOk(w: World, id: nat)
    requires id in w.changes.live
  {
    var baseline := w.changes.live[id].change.baseline;
    && id in w.origins && baseline % 2 == 0 && baseline <= SignalOf(w)
    && (baseline == 2 * w.effective ==> w.selected == w.origins[id])
  }

  ghost predicate Subscriptions(w: World) {
    && Generations.Inv(w.changes) && Generations.HistoryRises(w.changes)
    && SignalOf(w) == 2 * |w.changes.notes|
    && forall id :: id in w.changes.live ==> OriginOk(w, id)
  }

  ghost predicate Inv(w: World) {
    Sound(w) && LockHeld(w) && Phased(w) && Readers(w) && Subscriptions(w)
  }

  predicate CanRun(w: World, steps: seq<Step>)
    decreases |steps|
  {
    steps == [] || (Sound(w) && Enabled(w, steps[0]) && CanRun(Apply(w, steps[0]), steps[1..]))
  }

  function Run(w: World, steps: seq<Step>): World
    requires CanRun(w, steps)
    decreases |steps|
  {
    if steps == [] then w else Run(Apply(w, steps[0]), steps[1..])
  }

  lemma LockKept(w: World, id: nat)
    requires Sound(w) && LockHeld(w) && Enabled(w, Advance(id))
    ensures Sound(AdvanceWriter(w, id)) && LockHeld(AdvanceWriter(w, id))
  {
    assert HoldsLock(w.writers[id].pc) <==> w.lock == Some(id);
  }

  lemma HolderPhase(w: World, id: nat)
    requires Sound(w) && LockHeld(w) && Phased(w) && id in w.writers && HoldsLock(w.writers[id].pc)
    ensures w.lock == Some(id) && Phase(w, w.writers[id])
  {
    assert HoldsLock(w.writers[id].pc) <==> w.lock == Some(id);
  }

  lemma PublishMoves(c: Generations.World, generation: nat)
    requires generation != c.signal.generation
    ensures Generations.Apply(c, Generations.Publish(generation)).signal.generation == generation
  {
  }

  /** The holder's own step takes it to its next phase. */
  lemma HolderAdvances(w: World, id: nat)
    requires Sound(w) && id in w.writers && HoldsLock(w.writers[id].pc) && Phase(w, w.writers[id])
    ensures var after := AdvanceWriter(w, id);
      && |after.selected| == |w.selected|
      && if after.writers[id].pc.Deliver? || after.writers[id].pc.Done?
         then after.generation == 2 * after.effective == SignalOf(after)
         else Phase(after, after.writers[id])
  {
    if w.writers[id].pc.Prepare? {
      PublishMoves(w.changes, w.writers[id].pc.g + 2);
    }
  }

  /** A switch advancing keeps the generations in step. */
  lemma PhaseKept(w: World, id: nat)
    requires Inv(w) && Enabled(w, Advance(id)) && LockHeld(AdvanceWriter(w, id)) && Sound(AdvanceWriter(w, id))
    ensures Phased(AdvanceWriter(w, id))
  {
    assert HoldsLock(w.writers[id].pc) <==> w.lock == Some(id);
    if HoldsLock(w.writers[id].pc) {
      HolderAdvances(w, id);
    }
  }

  lemma ReadersKept(w: World, id: nat)
    requires Inv(w) && Enabled(w, Advance(id))
    ensures Readers(AdvanceWriter(w, id))
  {
    var after := AdvanceWriter(w, id);
    assert after.effective == w.effective ==> after.selected == w.selected;
    forall r | r in after.readers ensures ReaderOk(after, after.readers[r]) {
      assert ReaderOk(w, w.readers[r]);
    }
  }

  /** A publication always brings a new, higher generation. */
  lemma PublishKeeps(c: Generations.World, generation: nat)
    requires Generations.Inv(c) && Generations.HistoryRises(c) && generation > c.signal.generation
    ensures var after := Generations.Apply(c, Generations.Publish(generation));
      && Generations.Inv(after) && Generations.HistoryRises(after)
      && after.signal.generation == generation && |after.notes| == |c.notes| + 1 && after.live == c.live
  {
    Generations.StepKeeps(c, Generations.Publish(generation));
    var after := Generations.Apply(c, Generations.Publish(generation));
    forall i, j | 0 <= i < j < |after.history| ensures after.history[i] < after.history[j] {
      assert i < |c.notes| ==> c.history[i] < c.history[|c.notes|];
    }
  }

  /** What a switch advancing does to everything but its own progress. */
  lemma SwitchMoves(w: World, id: nat)
    requires Inv(w) && Enabled(w, Advance(id))
    ensures var after := AdvanceWriter(w, id);
      && after.origins == w.origins && SignalOf(w) <= 2 * w.effective
      && ((after.effective == w.effective && after.selected == w.selected) || after.effective == w.effective + 1)
      && (if w.writers[id].pc.Prepare?
          then SignalOf(w) < w.writers[id].pc.g + 2
               && after.changes == Generations.Apply(w.changes, Generations.Publish(w.writers[id].pc.g + 2))
          else after.changes == w.changes)
      && (w.writers[id].pc.Prepare? ==> w.writers[id].pc.g == SignalOf(w))
  {
    if HoldsLock(w.writers[id].pc) {
      HolderPhase(w, id);
    }
  }

  lemma OriginsFollow(w: World, after: World)
    requires Subscriptions(w) && SignalOf(w) <= 2 * w.effective && after.origins == w.origins
    requires (after.effective == w.effective && after.selected == w.selected) || after.effective == w.effective + 1
    requires after.changes.live == w.changes.live && SignalOf(after) >= SignalOf(w)
    ensures forall c :: c in after.changes.live ==> OriginOk(after, c)
  {
    forall c | c in after.changes.live ensures OriginOk(after, c) { assert OriginOk(w, c); }
  }

  lemma SubscriptionsKept(w: World, id: nat)
    requires Inv(w) && Enabled(w, Advance(id))
    ensures Subscriptions(AdvanceWriter(w, id))
  {
    SwitchMoves(w, id);
    if w.writers[id].pc.Prepare? {
      PublishKeeps(w.changes, w.writers[id].pc.g + 2);
    }
    OriginsFollow(w, AdvanceWriter(w, id));
  }

  lemma EvenIsSettled(w: World)
    requires Inv(w) && w.generation % 2 == 0
    ensures w.generation == 2 * w.effective
  {
  }

  lemma ReaderKeeps(w: World, step: Step)
    requires Inv(w) && Enabled(w, step)
    requires step.Open? || step.ReadBefore? || step.LoadSelected? || step.ReadAfter?
    ensures Inv(Apply(w, step))
  {
    var after := Apply(w, step);
    if w.generation % 2 == 0 {
      EvenIsSettled(w);
    }
    forall r | r in after.readers ensures ReaderOk(after, after.readers[r]) {
      if r in w.readers {
        assert ReaderOk(w, w.readers[r]);
      }
    }
    forall c | c in after.changes.live ensures OriginOk(after, c) { assert OriginOk(w, c); }
  }

  lemma WatchKeeps(w: World, baseline: nat, selected: seq<nat>)
    requires Inv(w) && baseline % 2 == 0 && baseline <= SignalOf(w)
    requires baseline == 2 * w.effective ==> w.selected == selected
    ensures Subscriptions(Watching(w, baseline, selected))
  {
    Generations.StepKeeps(w.changes, Generations.Watch(baseline));
    var after := Watching(w, baseline, selected);
    forall c | c in after.changes.live ensures OriginOk(after, c) {
      if c != w.changes.created { assert OriginOk(w, c); }
    }
  }

  lemma SignalKeeps(w: World, inner: Generations.Step)
    requires Inv(w) && LockFree(inner) && Generations.Enabled(w.changes, inner)
    ensures Subscriptions(w.(changes := Generations.Apply(w.changes, inner)))
  {
    Generations.StepKeeps(w.changes, inner);
    var after := w.(changes := Generations.Apply(w.changes, inner));
    forall c | c in after.changes.live ensures OriginOk(after, c) { assert OriginOk(w, c); }
  }

  lemma ChangeKeeps(w: World, step: Step)
    requires Inv(w) && Enabled(w, step) && (step.Subscribe? || step.SubscribeFrom? || step.Signal?)
    ensures Inv(Apply(w, step))
  {
    var after := Apply(w, step);
    match step
    case Subscribe => WatchKeeps(w, SignalOf(w), w.selected);
    case SubscribeFrom(id) =>
      assert ReaderOk(w, w.readers[id]);
      WatchKeeps(w, w.readers[id].before.value.0, w.readers[id].before.value.1);
    case Signal(inner) => SignalKeeps(w, inner);
    forall r | r in after.readers ensures ReaderOk(after, after.readers[r]) { assert ReaderOk(w, w.readers[r]); }
  }

  lemma BeginKeeps(w: World, step: Step)
    requires Inv(w) && step.Begin? && Enabled(w, step)
    ensures Inv(Apply(w, step))
  {
    var after := Apply(w, step);
    forall r | r in after.readers ensures ReaderOk(after, after.readers[r]) { assert ReaderOk(w, w.readers[r]); }
    forall c | c in after.changes.live ensures OriginOk(after, c) { assert OriginOk(w, c); }
  }

  lemma StepKeeps(w: World, step: Step)
    requires Inv(w) && Enabled(w, step)
    ensures Inv(Apply(w, step))
  {
    match step
    case Begin(id, selector, member) => BeginKeeps(w, step);
    case Advance(id) =>
      LockKept(w, id);
      PhaseKept(w, id);
      ReadersKept(w, id);
      SubscriptionsKept(w, id);
    case Open(_) => ReaderKeeps(w, step);
    case ReadBefore(_) => ReaderKeeps(w, step);
    case LoadSelected(_, _) => ReaderKeeps(w, step);
    case ReadAfter(_) => ReaderKeeps(w, step);
    case _ => ChangeKeeps(w, step);
  }

  lemma {:induction false} RunKeeps(w: World, steps: seq<Step>)
    requires Inv(w) && CanRun(w, steps)
    ensures Inv(Run(w, steps))
    decreases |steps|
  {
    if steps != [] {
      StepKeeps(w, steps[0]);
      RunKeeps(Apply(w, steps[0]), steps[1..]);
    }
  }

  // Main results

  /** The generation is odd exactly while a switch, and then only one, is inside its change. */
  lemma OddExactlyInside(selected: seq<nat>, steps: seq<Step>)
    requires CanRun(Initial(selected), steps)
    ensures var w := Run(Initial(selected), steps);
      w.generation % 2 == 1 <==> exists id :: id in w.writers && InsideChange(w.writers[id].pc)
    ensures var w := Run(Initial(selected), steps);
      forall a, b ::
        (a in w.writers && b in w.writers && HoldsLock(w.writers[a].pc) && HoldsLock(w.writers[b].pc)) ==> a == b
  {
    RunKeeps(Initial(selected), steps);
    var w := Run(Initial(selected), steps);
    if w.generation % 2 == 1 {
      assert InsideChange(w.writers[w.lock.value].pc);
    }
  }

  /** With the update lock free, both generations are twice the number of effective switches. */
  lemma GenerationsAgree(selected: seq<nat>, steps: seq<Step>)
    requires CanRun(Initial(selected), steps)
    requires Run(Initial(selected), steps).lock == None
    ensures var w := Run(Initial(selected), steps); w.generation == SignalOf(w) == 2 * w.effective
  {
    RunKeeps(Initial(selected), steps);
  }

  /** A step counts as an effective switch exactly when it changes a selection. */
  lemma EffectiveChangesSelection(selected: seq<nat>, steps: seq<Step>, step: Step)
    requires CanRun(Initial(selected), steps) && Enabled(Run(Initial(selected), steps), step)
    ensures Inv(Run(Initial(selected), steps))
    ensures var w := Run(Initial(selected), steps);
      var after := Apply(w, step);
      && (after.selected != w.selected <==> after.effective == w.effective + 1)
      && (after.selected == w.selected <==> after.effective == w.effective)
  {
    RunKeeps(Initial(selected), steps);
    var w := Run(Initial(selected), steps);
    if step.Advance? && w.writers[step.writer].pc.Store? {
      var x := w.writers[step.writer];
      assert HoldsLock(x.pc) && w.lock == Some(step.writer);
      assert Apply(w, step).selected[x.selector] != w.selected[x.selector];
    }
  }

  /** The lock holder never meets an odd generation and its exchange never fails. */
  lemma ExchangeAlwaysSucceeds(selected: seq<nat>, steps: seq<Step>, id: nat)
    requires CanRun(Initial(selected), steps) && id in Run(Initial(selected), steps).writers
    ensures var w := Run(Initial(selected), steps);
      && (w.writers[id].pc.LoadGeneration? ==> w.generation % 2 == 0)
      && (w.writers[id].pc.Exchange? ==> w.generation == w.writers[id].pc.g)
  {
    RunKeeps(Initial(selected), steps);
    var w := Run(Initial(selected), steps);
    assert HoldsLock(w.writers[id].pc) <==> w.lock == Some(id);
  }

  /** Until a switch that took the lock gives it back, what it asked for is selected. */
  lemma SwitchIsInEffect(selected: seq<nat>, steps: seq<Step>, id: nat)
    requires CanRun(Initial(selected), steps) && id in Run(Initial(selected), steps).writers
    requires Run(Initial(selected), steps).writers[id].pc.Unlock?
    ensures var w := Run(Initial(selected), steps);
      var x := w.writers[id];
      x.selector < |w.selected| && w.selected[x.selector] == x.member
  {
    RunKeeps(Initial(selected), steps);
    var w := Run(Initial(selected), steps);
    assert HoldsLock(w.writers[id].pc) <==> w.lock == Some(id);
  }

  /** A reader that reads the same generation before and after used selections that were all in effect at both reads. */
  lemma SameGenerationCoexisted(selected: seq<nat>, steps: seq<Step>, id: nat)
    requires CanRun(Initial(selected), steps) && id in Run(Initial(selected), steps).readers
    requires var r := Run(Initial(selected), steps).readers[id];
      r.before.Some? && r.after.Some? && r.before.value.0 == r.after.value.0
    ensures var r := Run(Initial(selected), steps).readers[id];
      r.before.value.1 == r.after.value.1 && Match(r.seen, r.after.value.1)
  {
    RunKeeps(Initial(selected), steps);
    var w := Run(Initial(selected), steps);
    assert ReaderOk(w, w.readers[id]);
  }

  /** A switch has taken effect, and the publication of its generation is still to come. */
  predicate AboutToPublish(w: World) {
    && w.lock.Some? && w.lock.value in w.writers
    && var pc := w.writers[w.lock.value].pc; (pc.Finish? && pc.changed) || pc.Prepare?
  }

  /** A poll, made at any time, is ready exactly when the generation of a switch was published since the baseline. One
      that stays pending is registered, and either nothing changed since the baseline or the publication that detaches
      its waker is the lock holder's next but one step at most. */
  lemma WatchMissesNothing(selected: seq<nat>, steps: seq<Step>, id: nat, waker: Generations.Waker)
    requires CanRun(Initial(selected), steps) && id in Run(Initial(selected), steps).changes.live
    requires Run(Initial(selected), steps).changes.live[id].change.completed.None?
    ensures var w := Run(Initial(selected), steps);
      var change := w.changes.live[id].change;
      var (signal, polled) := Generations.AfterPoll(w.changes.signal, change, waker);
      && id in w.origins
      && (polled.completed.Some? <==> 2 * |w.changes.notes| > change.baseline)
      && (polled.completed.None? ==>
            && polled.subscriber.Some? && polled.subscriber.value in signal.subscribers
            && signal.subscribers[polled.subscriber.value] == waker
            && (2 * w.effective > change.baseline <==> AboutToPublish(w))
            && (!AboutToPublish(w) ==> w.selected == w.origins[id]))
  {
    RunKeeps(Initial(selected), steps);
    var w := Run(Initial(selected), steps);
    assert OriginOk(w, id);
    assert Generations.AnswersMatch(w.changes, w.changes.live[id]);
  }

  /** A subscription last seen pending is still registered, with nothing published since, or the first publication since
      carried its latest waker, which is woken once or still to be woken. */
  lemma PendingIsCarried(selected: seq<nat>, steps: seq<Step>, id: nat)
    requires CanRun(Initial(selected), steps) && id in Run(Initial(selected), steps).changes.live
    requires Run(Initial(selected), steps).changes.live[id].pending.Some?
    ensures var c := Run(Initial(selected), steps).changes;
      var x := c.live[id];
      && x.change.subscriber.Some? && x.since <= |c.notes|
      && var k := x.change.subscriber.value;
      && (x.since == |c.notes| ==> k in c.signal.subscribers && c.signal.subscribers[k] == x.pending.value)
      && (x.since < |c.notes| ==>
            && k in c.notes[x.since].registered && c.notes[x.since].registered[k] == x.pending.value
            && c.woken[(x.since, k)] == if k in c.notes[x.since].waiting then 0 else 1)
  {
    RunKeeps(Initial(selected), steps);
    var c := Run(Initial(selected), steps).changes;
    assert Generations.AnswersMatch(c, c.live[id]) && Generations.NotLost(c, c.live[id]);
    var k := c.live[id].change.subscriber.value;
    assert c.woken[(c.live[id].since, k)] == if Generations.Delivered(c, c.live[id].since, k) then 1 else 0;
  }
}
