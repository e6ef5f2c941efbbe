/** A well-formed capture, event by event and by position alone (crates/ferrum2-rocom/src/decode.rs). */
module DecodeMeaning {
  import opened Prelude
  import opened Wire
  import opened Keys
  import opened KeyTrackers
  import opened Framing
  import opened Budget
  import opened Decode

  /** Announced and not closed since. */
  ghost predicate IsOpen(events: seq<Event>, id: nat) {
    exists i :: 0 <= i < |events| && Opens(events[i], id) && forall j :: i < j < |events| ==> !Closes(events[j], id)
  }

  predicate Opens(e: Event, id: nat) { e.Connection? && e.opens == id }

  predicate Closes(e: Event, id: nat) { e.End? && e.closes == id }

  predicate Carries(e: Event, id: nat, direction: Direction) {
    e.Data? && e.connection == id && e.direction == direction
  }

  /** Where the direction has come: the end of its latest piece of data. */
  ghost predicate ContinuesAt(events: seq<Event>, id: nat, direction: Direction, offset: nat) {
    || (offset == 0 && forall i :: 0 <= i < |events| ==> !Carries(events[i], id, direction))
    || exists i :: 0 <= i < |events| && IsLatest(events, id, direction, i)
         && offset == events[i].offset + |Payload(events[i])|
  }

  ghost predicate IsLatest(events: seq<Event>, id: nat, direction: Direction, i: nat)
    requires i < |events|
  {
    Carries(events[i], id, direction) && forall j :: i < j < |events| ==> !Carries(events[j], id, direction)
  }

  ghost predicate IsLatestData(events: seq<Event>, i: nat)
    requires i < |events|
  {
    events[i].Data? && forall j :: i < j < |events| ==> !events[j].Data?
  }

  /** The key record to come next: the one of the latest piece of data that is as many events behind it as now. */
  ghost predicate IsDue(events: seq<Event>, key: Evidence) {
    exists i :: 0 <= i < |events| && IsLatestData(events, i) && DueAfter(events, i, key)
  }

  ghost predicate DueAfter(events: seq<Event>, i: nat, key: Evidence)
    requires i < |events| && events[i].Data?
  {
    var keys, n := KeysOf(events[..i], events[i]), |events| - i - 1;
    n < |keys| && keys[n] == key
  }

  ghost predicate NothingDue(events: seq<Event>) {
    forall i :: 0 <= i < |events| && IsLatestData(events, i) ==> |KeysOf(events[..i], events[i])| <= |events| - i - 1
  }

  /** What the next event has to be like after these. */
  ghost predicate Fits(before: seq<Event>, e: Event, size: nat) {
    && (e.Started? <==> before == [])
    && (forall i :: 0 <= i < |before| ==> !before[i].Stopped?)
    && (!e.Key? ==> NothingDue(before))
    && KindOk(before, e, size)
  }

  ghost predicate KindOk(before: seq<Event>, e: Event, size: nat) {
    match e
    case Started(maxBytes) => 65536 <= maxBytes && size <= maxBytes
    case Connection(id) =>
      && id != 0 && (forall i :: 0 <= i < |before| ==> !Opens(before[i], id))
      && |SeenIds(before)| < 1_000_000 && |OpenIds(before)| < 1024
    case Data(id, direction, offset, payload) =>
      && IsOpen(before, id) && ContinuesAt(before, id, direction, offset)
      && payload.Some? && 1 <= |payload.value| <= 32768 && offset + |payload.value| < 0x1_0000_0000_0000_0000
      && (id in OpenIds(before) ==>
            !Overruns(Received(before, id, direction), payload.value, RoomAfter(before, id, direction)))
    case Key(id, evidence) => IsDue(before, (id, evidence))
    case End(id, reason) => IsOpen(before, id) && reason in ["completed", "io", "idle_timeout", "cancelled"]
    case Stopped(complete, reason) =>
      && reason in ["shutdown", "queue_full", "size_limit", "writer_error", "resource_limit", "open_connections"]
      && (complete ==> reason == "shutdown" && forall id: nat :: !IsOpen(before, id))
  }

  /** By position alone: every line is a record in sequence that fits those before it. */
  ghost predicate AllFit(lines: seq<Line>, size: nat) {
    && AllRecords(lines)
    && (forall k :: 0 <= k < |lines| ==> InSequence(lines[k].record, k))
    && EventsFit(Events(lines), size)
  }

  predicate InSequence(record: Record, k: nat) {
    record.schemaVersion == 1 && record.eventSeq == k + 1 < 0xFFFF_FFFF_FFFF_FFFF
  }

  ghost predicate EventsFit(events: seq<Event>, size: nat) {
    forall k :: 0 <= k < |events| ==> Fits(events[..k], events[k], size)
  }

  lemma {:induction false} OpenMeaning(events: seq<Event>, id: nat)
    ensures id in OpenIds(events) <==> IsOpen(events, id)
  {
    if events != [] {
      var n := |events| - 1;
      var before, last := events[..n], events[n];
      OpenMeaning(before, id);
      if IsOpen(events, id) && !Opens(last, id) {
        var i :| 0 <= i < |events| && Opens(events[i], id) && forall j :: i < j < |events| ==> !Closes(events[j], id);
        assert Opens(before[i], id) && !Closes(events[n], id);
      }
      if IsOpen(before, id) && !Closes(last, id) {
        var i :| 0 <= i < |before| && Opens(before[i], id) && forall j :: i < j < |before| ==> !Closes(before[j], id);
        assert Opens(events[i], id);
      }
      if Opens(last, id) {
        assert Opens(events[n], id);
      }
    }
  }

  lemma {:induction false} SeenMeaning(events: seq<Event>, id: nat)
    ensures id in SeenIds(events) <==> exists i :: 0 <= i < |events| && Opens(events[i], id)
  {
    if events != [] {
      var n := |events| - 1;
      SeenMeaning(events[..n], id);
      if i :| 0 <= i < |events| && Opens(events[i], id) && i < n {
        assert Opens(events[..n][i], id);
      }
      if i :| 0 <= i < n && Opens(events[..n][i], id) {
        assert Opens(events[i], id);
      }
      if Opens(events[n], id) {
        assert id in SeenIds(events);
      }
    }
  }

  // Clean events so far

  /** What the record loop asks of an event after these. */
  ghost predicate Accepted(before: seq<Event>, e: Event, size: nat) {
    && !HasStopped(before)
    && (before == [] ==> e.Started?)
    && (Owed(before) != [] ==> e.Key?)
    && EventOk(before, e, size)
  }

  ghost predicate Clean(events: seq<Event>, size: nat) {
    forall k :: 0 <= k < |events| ==> Accepted(events[..k], events[k], size)
  }

  lemma CleanPart(events: seq<Event>, size: nat)
    requires Clean(events, size) && events != []
    ensures var n := |events| - 1;
      && Clean(events[..n], size) && Accepted(events[..n], events[n], size)
      && events == events[..n] + [events[n]]
  {
    var n := |events| - 1;
    forall k | 0 <= k < n ensures Accepted(events[..n][..k], events[..n][k], size) {
      assert events[..n][..k] == events[..k];
    }
  }

  lemma ContinuesOnce(events: seq<Event>, id: nat, direction: Direction, a: nat, b: nat)
    requires ContinuesAt(events, id, direction, a) && ContinuesAt(events, id, direction, b)
    ensures a == b
  {
  }

  lemma ContinuesPast(events: seq<Event>, e: Event, id: nat, direction: Direction, offset: nat)
    requires ContinuesAt(events, id, direction, offset) && !Carries(e, id, direction)
    ensures ContinuesAt(events + [e], id, direction, offset)
  {
    var more := events + [e];
    if exists i :: 0 <= i < |events| && IsLatest(events, id, direction, i)
                     && offset == events[i].offset + |Payload(events[i])| {
      var i :| 0 <= i < |events| && IsLatest(events, id, direction, i)
        && offset == events[i].offset + |Payload(events[i])|;
      assert more[i] == events[i] && IsLatest(more, id, direction, i);
    }
  }

  lemma ContinuesAfter(events: seq<Event>, e: Event, id: nat, direction: Direction)
    requires Carries(e, id, direction)
    ensures ContinuesAt(events + [e], id, direction, e.offset + |Payload(e)|)
  {
    assert (events + [e])[|events|] == e && IsLatest(events + [e], id, direction, |events|);
  }

  lemma {:induction false} ReceivedContinues(events: seq<Event>, size: nat, id: nat, direction: Direction)
    requires Clean(events, size)
    ensures ContinuesAt(events, id, direction, |Received(events, id, direction)|)
  {
    if events != [] {
      var before, last := events[..|events| - 1], events[|events| - 1];
      CleanPart(events, size);
      ReceivedContinues(before, size, id, direction);
      if Carries(last, id, direction) {
        ContinuesAfter(before, last, id, direction);
      } else {
        ContinuesPast(before, last, id, direction, |Received(before, id, direction)|);
      }
    }
  }

  /** What is owed is what remains of the latest data's keys. */
  ghost predicate OwedIs(events: seq<Event>, owed: seq<Evidence>) {
    && ((forall i :: 0 <= i < |events| ==> !events[i].Data?) ==> owed == [])
    && forall i :: 0 <= i < |events| && IsLatestData(events, i) ==> owed == RestAfter(events, i)
  }

  ghost function RestAfter(events: seq<Event>, i: nat): seq<Evidence>
    requires i < |events| && events[i].Data?
  {
    var keys, n := KeysOf(events[..i], events[i]), |events| - i - 1;
    if n <= |keys| then keys[n..] else []
  }

  lemma RestMoves(events: seq<Event>, i: nat)
    requires i < |events| - 1 && events[i].Data?
    ensures var before := events[..|events| - 1];
      RestAfter(events, i) == if RestAfter(before, i) == [] then [] else RestAfter(before, i)[1..]
  {
    var before := events[..|events| - 1];
    assert before[..i] == events[..i];
  }

  lemma {:induction false} OwedMeaning(events: seq<Event>, size: nat)
    requires Clean(events, size)
    ensures OwedIs(events, Owed(events))
  {
    if events != [] {
      var n := |events| - 1;
      var before, last := events[..n], events[n];
      CleanPart(events, size);
      OwedMeaning(before, size);
      forall i | 0 <= i < |events| && IsLatestData(events, i) ensures Owed(events) == RestAfter(events, i) {
        if i == n {
          OwedAfterData(before, last);
          assert KeysOf(before, last)[0..] == KeysOf(before, last);
        } else {
          assert before[i] == events[i] && IsLatestData(before, i);
          RestMoves(events, i);
        }
      }
      if forall i :: 0 <= i < |events| ==> !events[i].Data? {
        forall i | 0 <= i < n ensures !before[i].Data? { assert before[i] == events[i]; }
        assert !last.Data?;
      }
    }
  }

  lemma {:induction false} LatestDataExists(events: seq<Event>) returns (latest: Option<nat>)
    ensures latest.None? ==> forall i :: 0 <= i < |events| ==> !events[i].Data?
    ensures latest.Some? ==> latest.value < |events| && IsLatestData(events, latest.value)
  {
    if events == [] {
      latest := None;
    } else if events[|events| - 1].Data? {
      latest := Some(|events| - 1);
    } else {
      latest := LatestDataExists(events[..|events| - 1]);
      if latest.Some? {
        assert events[..|events| - 1][latest.value] == events[latest.value];
      }
    }
  }

  lemma NothingDueMeaning(events: seq<Event>, size: nat)
    requires Clean(events, size)
    ensures NothingDue(events) <==> Owed(events) == []
  {
    OwedMeaning(events, size);
    var latest := LatestDataExists(events);
    if latest.Some? {
      assert Owed(events) == RestAfter(events, latest.value);
      assert forall j :: 0 <= j < |events| && IsLatestData(events, j) ==> j == latest.value;
    }
  }

  lemma IsDueMeaning(events: seq<Event>, size: nat, key: Evidence)
    requires Clean(events, size)
    ensures IsDue(events, key) <==> Owed(events) != [] && Owed(events)[0] == key
  {
    OwedMeaning(events, size);
    var latest := LatestDataExists(events);
    if latest.Some? {
      assert Owed(events) == RestAfter(events, latest.value);
      assert forall j :: 0 <= j < |events| && IsLatestData(events, j) ==> j == latest.value;
    }
  }

  lemma OpenIsOpen(events: seq<Event>)
    ensures forall id: nat :: id in OpenIds(events) <==> IsOpen(events, id)
  {
    forall id: nat ensures id in OpenIds(events) <==> IsOpen(events, id) { OpenMeaning(events, id); }
  }

  lemma DataOffsets(before: seq<Event>, size: nat, id: nat, direction: Direction, offset: nat)
    requires Clean(before, size)
    ensures ContinuesAt(before, id, direction, offset) <==> offset == |Received(before, id, direction)|
  {
    ReceivedContinues(before, size, id, direction);
    if ContinuesAt(before, id, direction, offset) {
      ContinuesOnce(before, id, direction, offset, |Received(before, id, direction)|);
    }
  }

  /** The part of fitting that depends on the kind of event. */
  lemma KindFits(before: seq<Event>, e: Event, size: nat)
    requires Clean(before, size) && !e.Started?
    ensures EventOk(before, e, size) <==> KindOk(before, e, size)
  {
    OpenIsOpen(before);
    match e
    case Connection(id) => SeenMeaning(before, id);
    case Data(id, direction, offset, _) => DataOffsets(before, size, id, direction, offset);
    case Key(id, evidence) => IsDueMeaning(before, size, (id, evidence));
    case _ =>
  }

  /** After clean events the loop accepts exactly what fits by position. */
  lemma AcceptedFits(before: seq<Event>, e: Event, size: nat)
    requires Clean(before, size)
    ensures Accepted(before, e, size) <==> Fits(before, e, size)
  {
    NothingDueMeaning(before, size);
    if !e.Started? {
      KindFits(before, e, size);
    }
  }

  ghost predicate EveryStep(events: seq<Event>, ok: (seq<Event>, Event) -> bool) {
    forall k: nat :: k < |events| ==> StepOk(events, k, ok)
  }

  ghost predicate StepOk(events: seq<Event>, k: nat, ok: (seq<Event>, Event) -> bool)
    requires k < |events|
  {
    ok(events[..k], events[k])
  }

  lemma EveryStepPart(events: seq<Event>, k: nat, ok: (seq<Event>, Event) -> bool)
    requires k <= |events| && forall j: nat :: j < k ==> StepOk(events, j, ok)
    ensures EveryStep(events[..k], ok)
  {
    forall j: nat | j < k ensures StepOk(events[..k], j, ok) {
      assert events[..k][..j] == events[..j] && StepOk(events, j, ok);
    }
  }

  /** Two rules that agree after everything the first allows allow the same. */
  lemma {:induction false} SameSteps(
      events: seq<Event>, p: (seq<Event>, Event) -> bool, q: (seq<Event>, Event) -> bool, k: nat)
    requires k <= |events|
    requires forall j: nat :: j < |events| && EveryStep(events[..j], p) ==>
      (StepOk(events, j, p) <==> StepOk(events, j, q))
    ensures (forall j: nat :: j < k ==> StepOk(events, j, p)) <==> (forall j: nat :: j < k ==> StepOk(events, j, q))
  {
    if k > 0 {
      SameSteps(events, p, q, k - 1);
      if forall j: nat :: j < k - 1 ==> StepOk(events, j, p) {
        EveryStepPart(events, k - 1, p);
        assert StepOk(events, k - 1, p) <==> StepOk(events, k - 1, q);
      }
    }
  }

  lemma FitIsClean(events: seq<Event>, size: nat)
    ensures EventsFit(events, size) <==> Clean(events, size)
  {
    var p := (before, e) => Accepted(before, e, size);
    var q := (before, e) => Fits(before, e, size);
    forall j: nat | j < |events| && EveryStep(events[..j], p) ensures StepOk(events, j, p) <==> StepOk(events, j, q) {
      CleanIfAccepted(events[..j], size, p);
      AcceptedFits(events[..j], events[j], size);
    }
    SameSteps(events, p, q, |events|);
    CleanIfAccepted(events, size, p);
    FitIfFits(events, size, q);
  }

  lemma CleanIfAccepted(events: seq<Event>, size: nat, p: (seq<Event>, Event) -> bool)
    requires forall before, e :: p(before, e) == Accepted(before, e, size)
    ensures Clean(events, size) <==> EveryStep(events, p)
  {
    forall k: nat | k < |events| ensures StepOk(events, k, p) <==> Accepted(events[..k], events[k], size) {}
    if EveryStep(events, p) {
      forall k: nat | k < |events| ensures Accepted(events[..k], events[k], size) { assert StepOk(events, k, p); }
    }
  }

  lemma FitIfFits(events: seq<Event>, size: nat, q: (seq<Event>, Event) -> bool)
    requires forall before, e :: q(before, e) == Fits(before, e, size)
    ensures EventsFit(events, size) <==> EveryStep(events, q)
  {
    forall k: nat | k < |events| ensures StepOk(events, k, q) <==> Fits(events[..k], events[k], size) {}
    if EveryStep(events, q) {
      forall k: nat | k < |events| ensures Fits(events[..k], events[k], size) { assert StepOk(events, k, q); }
    }
  }

  /** All lines are in order exactly if each fits those before it, by position. */
  lemma AllOkMeaning(lines: seq<Line>, size: nat)
    ensures AllOk(lines, size) <==> AllFit(lines, size)
  {
    FitIsClean(Events'(lines), size);
    if AllRecords(lines) {
      forall k | 0 <= k < |lines|
        ensures LineOk(Events(lines)[..k], lines[k], size) <==>
          InSequence(lines[k].record, k) && Accepted(Events(lines)[..k], Events(lines)[k], size)
      {
      }
    }
  }

  ghost function Events'(lines: seq<Line>): seq<Event> {
    if AllRecords(lines) then Events(lines) else []
  }

  /** A capture is well formed exactly if all lines fit, no key record is due at its end, and it ends in a complete,
      regular shutdown. */
  lemma WellFormedMeaning(lines: seq<Line>, size: nat)
    ensures WellFormedCapture(lines, size) <==>
      && AllFit(lines, size) && lines != [] && lines[|lines| - 1].record.event == Stopped(true, "shutdown")
      && NothingDue(Events(lines))
  {
    AllOkMeaning(lines, size);
    if AllFit(lines, size) {
      FitIsClean(Events(lines), size);
      NothingDueMeaning(Events(lines), size);
    }
  }
}
