/**
 How one overall deadline is shared among the targets of a name server (crates/ferrum2-dns/src/resolver.rs).
 The clock and what each attempt comes to are given; times are whole nanoseconds.
 */
module Deadlines {
  import opened Prelude

  const U32_MAX: nat := 0xFFFF_FFFF

  datatype DnsError =
    | InvalidServer | Busy | Timeout | Transport | Protocol | Runtime | NxDomain | NoData | Shutdown

  datatype Result<T> = Ok(value: T) | Err(error: DnsError)

  /** One attempt: when its deadline was computed, and that deadline. */
  datatype Attempt = Attempt(start: nat, until: nat)

  function Remaining(deadline: nat, now: nat): nat {
    if now < deadline then deadline - now else 0
  }

  /** What is left, split evenly over the targets left. */
  function Share(deadline: nat, now: nat, left: nat): nat
    requires left > 0
  {
    Remaining(deadline, now) / left
  }

  function CandidateDeadline(deadline: nat, now: nat, left: nat): Result<nat> {
    if Remaining(deadline, now) == 0 || left == 0 then Err(Timeout)
    else if left > U32_MAX then Err(InvalidServer)
    else Ok(now + Share(deadline, now, left))
  }

  predicate Retryable(e: DnsError) {
    e.Timeout? || e.Transport? || e.Protocol? || e.Runtime?
  }

  /** The target at which the loop stops: no time left, an answer, an error not worth retrying, or the last one. */
  ghost predicate Stops<T>(n: nat, deadline: nat, clock: nat -> nat, attempt: nat -> Result<T>, i: nat)
    requires i < n
  {
    || CandidateDeadline(deadline, clock(i), n - i).Err?
    || attempt(i).Ok? || !Retryable(attempt(i).error) || i + 1 == n
  }

  function AnswerAt<T>(n: nat, deadline: nat, clock: nat -> nat, attempt: nat -> Result<T>, i: nat): Result<T>
    requires i < n
  {
    var until := CandidateDeadline(deadline, clock(i), n - i);
    if until.Err? then Err(until.error) else attempt(i)
  }

  /** The loop shared by the three kinds of request: the first target that stops it decides. */
  method TryTargets<T>(n: nat, deadline: nat, clock: nat -> nat, attempt: nat -> Result<T>)
    returns (r: Result<T>, attempts: seq<Attempt>)
    ensures n == 0 ==> r == Err(Timeout) && attempts == []
    ensures n > 0 ==> exists k: nat :: k < n && Decides(n, deadline, clock, attempt, k, r, attempts)
  {
    attempts := [];
    var lastError: DnsError := Timeout;
    for i := 0 to n
      invariant |attempts| == i
      invariant (n > 0 ==> i < n) && (i == 0 ==> lastError == Timeout)
      invariant forall j: nat :: j < i ==> !Stops(n, deadline, clock, attempt, j)
      invariant forall j: nat :: j < |attempts| ==> Offered(n, deadline, clock, j, attempts[j])
    {
      var until := CandidateDeadline(deadline, clock(i), n - i);
      if until.Err? {
        assert Decides(n, deadline, clock, attempt, i, Err(until.error), attempts);
        return Err(until.error), attempts;
      }
      attempts := attempts + [Attempt(clock(i), until.value)];
      var outcome := attempt(i);
      if outcome.Ok? {
        assert Decides(n, deadline, clock, attempt, i, outcome, attempts);
        return outcome, attempts;
      }
      if Retryable(outcome.error) && i + 1 < n {
        lastError := outcome.error;
      } else {
        assert Decides(n, deadline, clock, attempt, i, outcome, attempts);
        return outcome, attempts;
      }
    }
    return Err(lastError), attempts;
  }

  ghost predicate Offered(n: nat, deadline: nat, clock: nat -> nat, i: nat, a: Attempt) {
    && i < n && a.start == clock(i) < deadline && n - i <= U32_MAX
    && a.until == clock(i) + Share(deadline, clock(i), n - i)
  }

  ghost predicate Decides<T>(
      n: nat, deadline: nat, clock: nat -> nat, attempt: nat -> Result<T>, k: nat, r: Result<T>, attempts: seq<Attempt>)
    requires k < n
  {
    && Stops(n, deadline, clock, attempt, k)
    && (forall j: nat :: j < k ==> !Stops(n, deadline, clock, attempt, j))
    && r == AnswerAt(n, deadline, clock, attempt, k)
    && |attempts| == (if CandidateDeadline(deadline, clock(k), n - k).Err? then k else k + 1)
    && forall j: nat :: j < |attempts| ==> Offered(n, deadline, clock, j, attempts[j])
  }

  /** Another target is asked only after a time-out, a transport, protocol or runtime failure, and while there is time;
      what ends the loop is an answer, any other error, the last target, or no time left. */
  lemma DecidesMeaning<T>(
      n: nat, deadline: nat, clock: nat -> nat, attempt: nat -> Result<T>, k: nat, r: Result<T>, attempts: seq<Attempt>)
    requires k < n && Decides(n, deadline, clock, attempt, k, r, attempts)
    ensures forall j: nat :: j < k ==>
      clock(j) < deadline && attempt(j).Err? && attempt(j).error in {Timeout, Transport, Protocol, Runtime}
    ensures clock(k) >= deadline ==> r == Err(Timeout) && |attempts| == k
    ensures clock(k) < deadline && n - k > U32_MAX ==> r == Err(InvalidServer) && |attempts| == k
    ensures clock(k) < deadline && n - k <= U32_MAX ==>
      && r == attempt(k) && |attempts| == k + 1
      && (r.Ok? || k + 1 == n || r.error in {InvalidServer, Busy, NxDomain, NoData, Shutdown})
    ensures forall j: nat :: j < |attempts| ==>
      attempts[j].start == clock(j) && attempts[j].until == clock(j) + (deadline - clock(j)) / (n - j)
  {
    forall j: nat | j < k
      ensures clock(j) < deadline && attempt(j).Err? && attempt(j).error in {Timeout, Transport, Protocol, Runtime}
    {
      assert !Stops(n, deadline, clock, attempt, j);
    }
    forall j: nat | j < |attempts|
      ensures attempts[j].start == clock(j) && attempts[j].until == clock(j) + (deadline - clock(j)) / (n - j)
    {
      assert Offered(n, deadline, clock, j, attempts[j]);
    }
  }

  // Both address families at one target

  /** The address requests of one attempt, A then AAAA: a missing family is no error, any other error ends it. */
  method LookupBoth<T>(deadline: nat, now: nat, answers: seq<Result<seq<T>>>) returns (r: Result<seq<T>>)
    requires |answers| == 2
    ensures Remaining(deadline, now) == 0 ==> r == Err(Timeout)
    ensures Remaining(deadline, now) > 0 && (forall a :: a in answers ==> a.Ok? || a.error.NoData?) ==>
      r == Ok(Found(answers[0]) + Found(answers[1]))
    ensures Remaining(deadline, now) > 0 && (exists a :: a in answers && a.Err? && !a.error.NoData?) ==>
      r == if answers[0].Err? && !answers[0].error.NoData? then Err(answers[0].error) else answers[1]
  {
    if Remaining(deadline, now) == 0 {
      return Err(Timeout);
    }
    var addresses: seq<T> := [];
    for i := 0 to 2
      invariant forall j :: 0 <= j < i ==> answers[j].Ok? || answers[j].error.NoData?
      invariant addresses == (if i > 0 then Found(answers[0]) else []) + if i > 1 then Found(answers[1]) else []
    {
      match answers[i] {
        case Ok(found) => addresses := addresses + found;
        case Err(error) =>
          if !error.NoData? {
            assert answers[i] in answers;
            return Err(error);
          }
      }
    }
    return Ok(addresses);
  }

  function Found<T>(r: Result<seq<T>>): seq<T> {
    if r.Ok? then r.value else []
  }

  // Shares over a run

  lemma ProductGrows(a: nat, b: nat, k: nat)
    requires a <= b
    ensures a * k <= b * k
  {
  }

  lemma AtLeastQuotient(r: nat, k: nat, q: nat)
    requires k > 0
    ensures r / k >= q <==> r >= q * k
  {
    assert r / k * k <= r < (r / k + 1) * k;
    if r / k >= q {
      ProductGrows(q, r / k, k);
    } else {
      ProductGrows(r / k + 1, q, k);
    }
  }

  /** The next share is no smaller exactly when enough is left for every later target at the present share. */
  lemma NextShare(deadline: nat, now: nat, later: nat, left: nat)
    requires left > 1 && now < deadline
    ensures Share(deadline, later, left - 1) >= Share(deadline, now, left) <==>
      Share(deadline, now, left) * (left - 1) <= Remaining(deadline, later)
  {
    AtLeastQuotient(Remaining(deadline, later), left - 1, Share(deadline, now, left));
  }

  /** Ending by its own deadline leaves that much. */
  lemma OnTimeLeavesEnough(deadline: nat, now: nat, later: nat, left: nat)
    requires left > 1 && now < deadline && now <= later <= now + Share(deadline, now, left)
    ensures Share(deadline, now, left) * (left - 1) <= Remaining(deadline, later)
    ensures Share(deadline, later, left - 1) >= Share(deadline, now, left)
  {
    var share := Share(deadline, now, left);
    AtLeastQuotient(Remaining(deadline, now), left, share);
    assert share * left == share * (left - 1) + share;
    NextShare(deadline, now, later, left);
  }

  lemma WithinOverall(deadline: nat, now: nat, left: nat)
    requires left > 0 && now < deadline
    ensures now + Share(deadline, now, left) <= deadline
    ensures left == 1 ==> now + Share(deadline, now, left) == deadline
  {
    var r := Remaining(deadline, now);
    assert r / left <= r by { ProductGrows(1, left, r / left); assert r / left * left <= r; }
  }

  ghost predicate OnTime(attempts: seq<Attempt>) {
    forall i :: 0 <= i < |attempts| - 1 ==> attempts[i].start <= attempts[i + 1].start <= attempts[i].until
  }

  ghost predicate Sharing(n: nat, deadline: nat, clock: nat -> nat, attempts: seq<Attempt>) {
    |attempts| <= n && forall i: nat :: i < |attempts| ==> Offered(n, deadline, clock, i, attempts[i])
  }

  function Length(a: Attempt): int {
    a.until - a.start
  }

  /** If each failed attempt ends by its own deadline, no target is offered less than the one before it. */
  lemma {:induction false} SharesNeverShrink(
      n: nat, deadline: nat, clock: nat -> nat, attempts: seq<Attempt>, i: nat, j: nat)
    requires Sharing(n, deadline, clock, attempts) && OnTime(attempts) && i <= j < |attempts|
    ensures Length(attempts[i]) <= Length(attempts[j])
    decreases j - i
  {
    if i < j {
      SharesNeverShrink(n, deadline, clock, attempts, i, j - 1);
      assert Offered(n, deadline, clock, j - 1, attempts[j - 1]) && Offered(n, deadline, clock, j, attempts[j]);
      OnTimeLeavesEnough(deadline, clock(j - 1), clock(j), n - (j - 1));
    }
  }

  /** Every attempted target is then offered at least an even part of the whole time, none goes past the overall
      deadline, and the last of all targets is offered everything left. */
  lemma EveryTargetGetsItsPart(n: nat, deadline: nat, clock: nat -> nat, attempts: seq<Attempt>, i: nat)
    requires Sharing(n, deadline, clock, attempts) && i < |attempts|
    ensures attempts[i].until <= deadline
    ensures i == n - 1 ==> attempts[i].until == deadline
    ensures OnTime(attempts) ==> Length(attempts[i]) >= (deadline - attempts[0].start) / n
  {
    assert Offered(n, deadline, clock, i, attempts[i]) && Offered(n, deadline, clock, 0, attempts[0]);
    WithinOverall(deadline, clock(i), n - i);
    if OnTime(attempts) {
      SharesNeverShrink(n, deadline, clock, attempts, 0, i);
    }
  }

  /** With a nanosecond or more for each target, attempts that end on time never run the next one out of time. */
  lemma OnTimeNeverRunsOut(n: nat, deadline: nat, clock: nat -> nat, attempts: seq<Attempt>, later: nat)
    requires Sharing(n, deadline, clock, attempts) && OnTime(attempts) && 0 < |attempts| < n
    requires deadline - attempts[0].start >= n
    requires attempts[|attempts| - 1].start <= later <= attempts[|attempts| - 1].until
    ensures CandidateDeadline(deadline, later, n - |attempts|).Ok?
  {
    var last := |attempts| - 1;
    EveryTargetGetsItsPart(n, deadline, clock, attempts, last);
    assert Offered(n, deadline, clock, last, attempts[last]);
    AtLeastQuotient(deadline - attempts[0].start, n, 1);
    OnTimeLeavesEnough(deadline, clock(last), later, n - last);
    ProductGrows(1, n - last - 1, Length(attempts[last]));
  }
}
