/** The buffer budget all open connections share (crates/ferrum2-rocom/src/decode.rs). */
module Budget {
  import opened Wire
  import opened Framing

  const MAX_BUFFERED: nat := 64 * 1024 * 1024

  /** The packet decoders of one connection. */
  datatype Framers = Framers(upload: Framer, download: Framer)
  {
    function Of(direction: Direction): Framer { if direction == Upload then upload else download }

    function With(direction: Direction, f: Framer): Framers {
      if direction == Upload then this.(upload := f) else this.(download := f)
    }

    function Capacity(): nat { upload.capacity + download.capacity }

    function Held(): nat { |upload.buffer| + |download.buffer| }

    predicate Valid() { upload.Valid() && download.Valid() }
  }

  const NEW_FRAMERS: Framers := Framers(NEW_FRAMER, NEW_FRAMER)

  ghost function TotalCapacity(open: map<nat, Framers>): nat {
    if open == map[] then 0 else var id :| id in open; open[id].Capacity() + TotalCapacity(open - {id})
  }

  lemma {:induction false} TotalWithout(open: map<nat, Framers>, id: nat)
    requires id in open
    ensures TotalCapacity(open) == open[id].Capacity() + TotalCapacity(open - {id})
  {
    var first :| first in open && TotalCapacity(open) == open[first].Capacity() + TotalCapacity(open - {first});
    if first != id {
      TotalWithout(open - {first}, id);
      TotalWithout(open - {id}, first);
      assert open - {first} - {id} == open - {id} - {first};
    }
  }

  lemma TotalWith(open: map<nat, Framers>, id: nat, framers: Framers)
    ensures TotalCapacity(open[id := framers]) == framers.Capacity() + TotalCapacity(open - {id})
  {
    TotalWithout(open[id := framers], id);
    assert open[id := framers] - {id} == open - {id};
  }

  ghost predicate Budgeted(open: map<nat, Framers>) {
    && TotalCapacity(open) <= MAX_BUFFERED
    && forall id :: id in open ==> open[id].Valid()
  }

  /** What one direction may hold, given what everything else holds. */
  ghost function Room(open: map<nat, Framers>, id: nat, direction: Direction): (r: nat)
    requires Budgeted(open) && id in open
    ensures open[id].Of(direction).capacity <= r
    ensures r == MAX_BUFFERED - (TotalCapacity(open) - open[id].Of(direction).capacity)
  {
    TotalWithout(open, id);
    MAX_BUFFERED - (TotalCapacity(open) - open[id].Of(direction).capacity)
  }

  lemma BudgetedWith(open: map<nat, Framers>, id: nat, direction: Direction, f: Framer)
    requires Budgeted(open) && id in open && f.Valid() && f.capacity <= Room(open, id, direction)
    ensures var framers := open[id].With(direction, f);
      && Budgeted(open[id := framers])
      && TotalCapacity(open[id := framers]) == TotalCapacity(open) - open[id].Of(direction).capacity + f.capacity
  {
    TotalWithout(open, id);
    TotalWith(open, id, open[id].With(direction, f));
  }

  lemma BudgetedNew(open: map<nat, Framers>, id: nat)
    requires Budgeted(open)
    ensures Budgeted(open[id := NEW_FRAMERS])
    ensures id !in open ==> TotalCapacity(open[id := NEW_FRAMERS]) == TotalCapacity(open)
  {
    TotalWith(open, id, NEW_FRAMERS);
    if id in open {
      TotalWithout(open, id);
    } else {
      assert open - {id} == open;
    }
  }

  lemma BudgetedWithout(open: map<nat, Framers>, id: nat)
    requires Budgeted(open) && id in open
    ensures Budgeted(open - {id}) && TotalCapacity(open - {id}) == TotalCapacity(open) - open[id].Capacity()
  {
    TotalWithout(open, id);
  }

  /** The packet decoder of a chunk, fed with it. */
  ghost function Decoded(open: map<nat, Framers>, id: nat, direction: Direction, chunk: seq<Byte>): (Framer, bool)
    requires Budgeted(open) && id in open
  {
    FeedFramer(open[id].Of(direction), chunk, Room(open, id, direction))
  }

  lemma DecodedFits(open: map<nat, Framers>, id: nat, direction: Direction, chunk: seq<Byte>)
    requires Budgeted(open) && id in open
    ensures var f := Decoded(open, id, direction, chunk).0; f.Valid() && f.capacity <= Room(open, id, direction)
  {
    FeedMeaning(open[id].Of(direction), chunk, Room(open, id, direction));
  }

  /** A chunk goes to its direction of its connection, if that is open. */
  ghost function AfterChunk(
      open: map<nat, Framers>, id: nat, direction: Direction, chunk: seq<Byte>): (r: map<nat, Framers>)
  {
    if Budgeted(open) && id in open then open[id := open[id].With(direction, Decoded(open, id, direction, chunk).0)]
    else open
  }

  lemma BudgetedAfterChunk(open: map<nat, Framers>, id: nat, direction: Direction, chunk: seq<Byte>)
    requires Budgeted(open)
    ensures Budgeted(AfterChunk(open, id, direction, chunk))
    ensures AfterChunk(open, id, direction, chunk).Keys == open.Keys
  {
    if id in open {
      DecodedFits(open, id, direction, chunk);
      BudgetedWith(open, id, direction, Decoded(open, id, direction, chunk).0);
    }
  }

  lemma RejectedFits(open: map<nat, Framers>, id: nat, direction: Direction)
    requires Budgeted(open) && id in open
    ensures Rejected(open[id].Of(direction)).Valid() && Rejected(open[id].Of(direction)).capacity == 0
  {
  }

  /** Bytes of unfinished packets in all buffers. */
  ghost function TotalHeld(open: map<nat, Framers>): nat {
    if open == map[] then 0 else var id :| id in open; open[id].Held() + TotalHeld(open - {id})
  }

  /** Buffers take up at least what they hold and at most twice that. */
  lemma {:induction false} TotalBetween(open: map<nat, Framers>)
    requires forall id :: id in open ==> open[id].Valid()
    ensures TotalHeld(open) <= TotalCapacity(open) <= 2 * TotalHeld(open)
  {
    if open != map[] {
      var id :| id in open && TotalHeld(open) == open[id].Held() + TotalHeld(open - {id});
      assert open[id].Valid();
      assert open[id].Held() <= open[id].Capacity() <= 2 * open[id].Held();
      TotalWithout(open, id);
      TotalBetween(open - {id});
    } else {
      assert TotalHeld(open) == TotalCapacity(open) == 0;
    }
  }

  /** So the room of a direction lies between the budget less what the others hold, and less twice that. */
  lemma RoomBetween(open: map<nat, Framers>, id: nat, direction: Direction)
    requires Budgeted(open) && id in open
    ensures var others := TotalHeld(open) - |open[id].Of(direction).buffer|;
      MAX_BUFFERED - 2 * others <= Room(open, id, direction) <= MAX_BUFFERED - others
  {
    TotalHeldWithout(open, id);
    TotalWithout(open, id);
    TotalBetween(open - {id});
  }

  lemma {:induction false} TotalHeldWithout(open: map<nat, Framers>, id: nat)
    requires id in open
    ensures TotalHeld(open) == open[id].Held() + TotalHeld(open - {id})
  {
    var first :| first in open && TotalHeld(open) == open[first].Held() + TotalHeld(open - {first});
    if first != id {
      TotalHeldWithout(open - {first}, id);
      TotalHeldWithout(open - {id}, first);
      assert open - {first} - {id} == open - {id} - {first};
    }
  }

  /** While the rest holds no more than the budget less one packet, nothing overruns. */
  lemma RoomIsEnough(open: map<nat, Framers>, id: nat, direction: Direction, bytes: seq<Byte>, chunk: seq<Byte>)
    requires Budgeted(open) && id in open
    requires TotalCapacity(open) - open[id].Of(direction).capacity <= MAX_BUFFERED - MAX_PACKET
    ensures !Overruns(bytes, chunk, Room(open, id, direction))
  {
    RoomForAPacketIsEnough(bytes, chunk, Room(open, id, direction));
  }

  /** A connection on its own never overruns. */
  lemma AloneIsEnough(open: map<nat, Framers>, id: nat, direction: Direction, bytes: seq<Byte>, chunk: seq<Byte>)
    requires Budgeted(open) && open.Keys == {id}
    ensures !Overruns(bytes, chunk, Room(open, id, direction))
  {
    TotalWithout(open, id);
    assert open - {id} == map[];
    RoomIsEnough(open, id, direction, bytes, chunk);
  }
}
