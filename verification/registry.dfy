/**
 The critical sections of one generation's connection registry (crates/ferrum2-dashboard/src/connection.rs and
 crates/ferrum2-dashboard/src/lib.rs). A connection is named by its admission sequence number.
 */
module Registries {
  const LIVE_LIMIT: nat := 4096
  const CANCELLATION_LIMIT: nat := 65_536
  const HISTORY_LIMIT: nat := 512
  const HISTORY_TTL: nat := 300_000

  datatype Protocol = Tcp | Udp | OtherProtocol

  /** A retired row and the time, in milliseconds, it was retired at. */
  datatype Row = Row(at: nat, id: nat)

  datatype Registry = Registry(
    live: set<nat>, history: seq<Row>, cancellation: set<nat>, active: nat, tcp: nat, udp: nat)

  const EMPTY: Registry := Registry({}, [], {}, 0, 0, 0)

  predicate Expired(row: Row, now: nat) {
    now >= row.at + HISTORY_TTL
  }

  function Pruned(history: seq<Row>, now: nat): (r: seq<Row>)
    ensures |r| <= |history|
  {
    if history == [] || !Expired(history[0], now) then history else Pruned(history[1..], now)
  }

  function Admitted(r: Registry, id: nat, p: Protocol): Registry {
    Registry(
      if |r.live| < LIVE_LIMIT then r.live + {id} else r.live,
      r.history,
      if |r.cancellation| < CANCELLATION_LIMIT then r.cancellation + {id} else r.cancellation,
      r.active + 1,
      if p.Tcp? then r.tcp + 1 else r.tcp,
      if p.Udp? then r.udp + 1 else r.udp)
  }

  /** The oldest row makes room for the new one. */
  function Archived(history: seq<Row>, row: Row): seq<Row> {
    var young := Pruned(history, row.at);
    (if |young| == HISTORY_LIMIT then young[1..] else young) + [row]
  }

  predicate CanRetire(r: Registry, p: Protocol) {
    r.active > 0 && (p.Tcp? ==> r.tcp > 0) && (p.Udp? ==> r.udp > 0)
  }

  function Retired(r: Registry, id: nat, p: Protocol, tracked: bool, now: nat): Registry
    requires CanRetire(r, p)
  {
    Registry(
      if tracked then r.live - {id} else r.live,
      if tracked then Archived(r.history, Row(now, id)) else r.history,
      r.cancellation - {id},
      r.active - 1,
      if p.Tcp? then r.tcp - 1 else r.tcp,
      if p.Udp? then r.udp - 1 else r.udp)
  }

  class RegistryTable {
    var live: set<nat>
    var history: seq<Row>
    var cancellation: set<nat>
    var active: nat
    var tcp: nat
    var udp: nat
    var omitted: nat

    function View(): Registry
      reads this
    {
      Registry(live, history, cancellation, active, tcp, udp)
    }

    constructor ()
      ensures View() == EMPTY && omitted == 0
    {
      live, history, cancellation, active, tcp, udp, omitted := {}, [], {}, 0, 0, 0, 0;
    }

    /** Admission: a row while there is room, otherwise one more omitted lease. */
    method Admit(id: nat, p: Protocol) returns (tracked: bool)
      modifies this
      ensures tracked == (|old(live)| < LIVE_LIMIT)
      ensures View() == Admitted(old(View()), id, p)
      ensures omitted == old(omitted) + if tracked then 0 else 1
    {
      tracked := |live| < LIVE_LIMIT;
      active := active + 1;
      match p {
        case Tcp => tcp := tcp + 1;
        case Udp => udp := udp + 1;
        case OtherProtocol =>
      }
      if tracked {
        live := live + {id};
      } else {
        omitted := omitted + 1;
      }
      if |cancellation| < CANCELLATION_LIMIT {
        cancellation := cancellation + {id};
      }
    }

    method Prune(now: nat)
      modifies this`history
      ensures history == Pruned(old(history), now)
    {
      while history != [] && Expired(history[0], now)
        invariant Pruned(history, now) == Pruned(old(history), now)
        decreases |history|
      {
        history := history[1..];
      }
    }

    /** Retirement: the row, if there is one, moves to the history. */
    method Retire(id: nat, p: Protocol, tracked: bool, now: nat)
      requires CanRetire(View(), p) && (!tracked ==> omitted > 0)
      modifies this
      ensures View() == Retired(old(View()), id, p, tracked, now)
      ensures omitted == old(omitted) - if tracked then 0 else 1
    {
      active := active - 1;
      match p {
        case Tcp => tcp := tcp - 1;
        case Udp => udp := udp - 1;
        case OtherProtocol =>
      }
      cancellation := cancellation - {id};
      if !tracked {
        omitted := omitted - 1;
        return;
      }
      live := live - {id};
      Archive(Row(now, id));
    }

    method Archive(row: Row)
      modifies this`history
      ensures history == Archived(old(history), row)
    {
      Prune(row.at);
      if |history| == HISTORY_LIMIT {
        history := history[1..];
      }
      history := history + [row];
    }

    /** Individual cancellation of the ids that are addressable; counts those not signalled before, each once. */
    method Close(ids: seq<nat>, signalled: set<nat>) returns (after: set<nat>, count: nat)
      ensures after == signalled + (set id | id in ids && (id in live || id in cancellation))
      ensures count == |after| - |signalled|
    {
      after, count := signalled, 0;
      for i := 0 to |ids|
        invariant after == signalled + (set id | id in ids[..i] && (id in live || id in cancellation))
        invariant count == |after| - |signalled|
      {
        var id := ids[i];
        assert ids[..i + 1] == ids[..i] + [id];
        if (id in live || id in cancellation) && id !in after {
          after := after + {id};
          count := count + 1;
        }
      }
      assert ids[..|ids|] == ids;
    }
  }

  ghost predicate InOrder(history: seq<Row>) {
    forall i, j :: 0 <= i < j < |history| ==> history[i].at <= history[j].at && history[i].id != history[j].id
  }

  /** With rows in order of retirement, pruning removes exactly the expired ones. */
  lemma {:induction false} PrunedExactly(history: seq<Row>, now: nat)
    requires InOrder(history)
    ensures forall row :: row in Pruned(history, now) <==> row in history && !Expired(row, now)
    ensures InOrder(Pruned(history, now))
  {
    if history != [] && Expired(history[0], now) {
      PrunedExactly(history[1..], now);
      assert history == [history[0]] + history[1..];
    } else {
      forall row | row in history ensures !Expired(row, now) {
        var i :| 0 <= i < |history| && history[i] == row;
      }
    }
  }

  /** A newly archived row comes last, nothing else is new, and the history stays bounded and in order. */
  lemma ArchivedKeeps(history: seq<Row>, row: Row)
    requires InOrder(history) && |history| <= HISTORY_LIMIT
    requires forall old_ :: old_ in history ==> old_.at <= row.at && old_.id != row.id
    ensures InOrder(Archived(history, row)) && 0 < |Archived(history, row)| <= HISTORY_LIMIT
    ensures forall x :: x in Archived(history, row) ==> x == row || x in history
    ensures Archived(history, row)[|Archived(history, row)| - 1] == row
  {
    var young := Pruned(history, row.at);
    PrunedExactly(history, row.at);
    AppendInOrder(young, row);
    if |young| == HISTORY_LIMIT {
      forall x | x in young[1..] ensures x in young {}
      AppendInOrder(young[1..], row);
    }
  }

  /** Every old row retired less than five minutes before, but the oldest of them when 512 are. */
  ghost predicate Stays(history: seq<Row>, x: Row, now: nat) {
    && x in history && now < x.at + 300_000
    && !(|history| == 512 && x == history[0] && forall y :: y in history ==> now < y.at + 300_000)
  }

  /** Archiving keeps exactly those rows that have to stay, as the newest stretch of the old history in its order. */
  lemma ArchivedExactly(history: seq<Row>, row: Row)
    requires InOrder(history) && |history| <= HISTORY_LIMIT
    requires forall x :: x in history ==> x.at <= row.at && x.id != row.id
    ensures forall x :: x in Archived(history, row) <==> x == row || Stays(history, x, row.at)
    ensures exists k :: 0 <= k <= |history| && Archived(history, row) == history[k..] + [row]
  {
    var young := Pruned(history, row.at);
    PrunedExactly(history, row.at);
    var k := PrunedFrom(history, row.at);
    if |young| == HISTORY_LIMIT {
      assert k == 0 && young == history;
      assert Archived(history, row) == history[1..] + [row];
      forall x | x in history ensures x in history[1..] <==> x != history[0] {
        var i :| 0 <= i < |history| && history[i] == x;
        if i > 0 { assert history[1..][i - 1] == x; }
      }
    } else {
      assert Archived(history, row) == history[k..] + [row];
      if |history| == HISTORY_LIMIT {
        assert k > 0 && history[0] in history && Expired(history[0], row.at);
      }
    }
  }

  /** Pruning takes rows off the front, all of them expired. */
  lemma {:induction false} PrunedFrom(history: seq<Row>, now: nat) returns (k: nat)
    ensures k <= |history| && Pruned(history, now) == history[k..]
    ensures forall i :: 0 <= i < k ==> Expired(history[i], now)
  {
    if history != [] && Expired(history[0], now) {
      k := PrunedFrom(history[1..], now);
      assert history[1..][k..] == history[k + 1..];
      k := k + 1;
    } else {
      k := 0;
    }
  }

  lemma AppendInOrder(rows: seq<Row>, row: Row)
    requires InOrder(rows) && forall x :: x in rows ==> x.at <= row.at && x.id != row.id
    ensures InOrder(rows + [row])
    ensures forall x :: x in rows + [row] ==> x == row || x in rows
  {
    forall i | 0 <= i < |rows| ensures rows[i].at <= row.at && rows[i].id != row.id { assert rows[i] in rows; }
  }
}
