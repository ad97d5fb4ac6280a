/** The callback target as the object the source mutates, run by one thread at a time, and the proof that the
    atomic steps of `CallbackRing`, left alone, add up to exactly its methods. */
module CallbackTarget {
  import opened Words
  import opened CallbackRing

  // ---- Whole operations ----

  function Enqueued(ring: Ring, record: Record): Ring
    requires |ring.slots| == CAPACITY
  {
    if Minus(ring.write, ring.read) >= CAPACITY then ring.(overflow := Plus(ring.overflow, 1))
    else
      ring.(slots := ring.slots[ring.write % CAPACITY := record], write := Plus(ring.write, 1), enqueued := Plus(ring.enqueued, 1))
  }

  /** One admitted callback. */
  function Delivered(ring: Ring, id: int): Ring
    requires |ring.slots| == CAPACITY
  {
    var counted := ring.(received := Plus(ring.received, 1));
    match Translate(id)
    case None => counted.(unknown := Plus(ring.unknown, 1))
    case Some((kind, handoff)) => Enqueued(counted, Record(kind, handoff, counted.received))
  }

  /** The `n` records from position `read` on. */
  function Waiting(slots: seq<Record>, read: Word, n: nat): (out: seq<Record>)
    requires |slots| == CAPACITY
    ensures |out| == n
    decreases n
  {
    if n == 0 then [] else [slots[read % CAPACITY]] + Waiting(slots, Plus(read, 1), n - 1)
  }

  lemma PlusAdds(x: Word, a: nat, b: nat)
    ensures Plus(Plus(x, a), b) == Plus(x, a + b)
    ensures Plus(x, 0) == x
  {
  }

  lemma {:induction false} WaitingAppend(slots: seq<Record>, read: Word, n: nat)
    requires |slots| == CAPACITY
    ensures Waiting(slots, read, n + 1) == Waiting(slots, read, n) + [slots[Plus(read, n) % CAPACITY]]
    decreases n
  {
    hide Plus;
    PlusAdds(read, 0, 0);
    if n > 0 {
      PlusAdds(read, 1, n - 1);
      WaitingAppend(slots, Plus(read, 1), n - 1);
    }
  }

  /** A position moved up from `read` meets `write` exactly when it has covered their wrapped difference. */
  lemma PositionMeetsLimit(read: Word, write: Word, n: nat)
    requires n <= Minus(write, read)
    ensures Plus(read, n) == write <==> n == Minus(write, read)
  {
  }

  function DrainCount(ring: Ring, room: nat): nat {
    var available := Minus(ring.write, ring.read);
    if available < room then available else room
  }

  function Drained(ring: Ring, room: nat): Ring {
    ring.(read := Plus(ring.read, DrainCount(ring, room)), drained := Plus(ring.drained, DrainCount(ring, room)))
  }

  // ---- The atomic steps, uninterrupted ----

  function ProducerRank(producer: Producer): nat {
    match producer
    case Outside | Finished => 0
    case Announced | Overflowing => 1
    case Stored(_, _) => 2
    case HasRoom(_, _) => 3
    case SawWrite(_, _) => 4
    case Numbered(_, _) => 5
    case Arrived(_) => 6
  }

  function RunProducer(ring: Ring, log: Log, producer: Producer): Side
    requires |ring.slots| == CAPACITY
    decreases ProducerRank(producer)
  {
    if ProducerRank(producer) == 0 then Side(ring, log, producer)
    else var side := Produce(ring, log, producer); RunProducer(side.ring, side.log, side.producer)
  }

  lemma EnqueueIsItsSteps(ring: Ring, log: Log, record: Record)
    requires |ring.slots| == CAPACITY
    ensures RunProducer(ring, log, SawWrite(record, ring.write)).ring == Enqueued(ring, record)
  {
    var compared := Produce(ring, log, SawWrite(record, ring.write)).producer;
    if compared.HasRoom? {
      var stored := Produce(ring, log, compared);
      var announced := Produce(stored.ring, stored.log, stored.producer);
      assert RunProducer(announced.ring, announced.log, Announced).ring == Enqueued(ring, record);
      assert RunProducer(stored.ring, stored.log, stored.producer).ring == Enqueued(ring, record);
    } else {
      assert RunProducer(ring, log, Overflowing).ring == Enqueued(ring, record);
    }
  }

  /** With no one else running, the producer's atomic steps deliver one callback. */
  lemma CallbackIsItsSteps(ring: Ring, log: Log, id: int)
    requires |ring.slots| == CAPACITY
    ensures RunProducer(ring, log, Arrived(id)).ring == Delivered(ring, id)
  {
    var numbered := Produce(ring, log, Arrived(id));
    match Translate(id) {
      case None =>
        var done := Produce(numbered.ring, numbered.log, numbered.producer);
        assert RunProducer(done.ring, done.log, done.producer).ring == done.ring;
      case Some((kind, handoff)) => EnqueueIsItsSteps(numbered.ring, numbered.log, Record(kind, handoff, numbered.ring.received));
    }
  }

  /** What one callback alone leaves: for an unknown identifier, for one that is accepted, and for one that finds
      the ring full. */
  lemma CallLeaves(ring: Ring, log: Log, id: int)
    requires |ring.slots| == CAPACITY
    ensures var side := RunProducer(ring, log, Arrived(id));
            && |side.ring.slots| == CAPACITY
            && (Translate(id) == None ==>
                  side == Side(ring.(received := Plus(ring.received, 1), unknown := Plus(ring.unknown, 1)),
                               log.(calls := log.calls + 1, unknowns := log.unknowns + 1), Finished))
            && (Translate(id).Some? && Minus(ring.write, ring.read) < 64 ==>
                  side.log == log.(calls := log.calls + 1, serials := log.serials + [log.calls + 1],
                                   accepted := log.accepted + [Record(Translate(id).value.0, Translate(id).value.1, Plus(ring.received, 1))]))
            && (Translate(id).Some? && Minus(ring.write, ring.read) >= 64 ==>
                  side == Side(ring.(received := Plus(ring.received, 1), overflow := Plus(ring.overflow, 1)),
                               log.(calls := log.calls + 1, overflows := log.overflows + 1), Finished))
  {
    var numbered := Produce(ring, log, Arrived(id));
    var seen := Produce(numbered.ring, numbered.log, numbered.producer);
    var compared := Produce(seen.ring, seen.log, seen.producer);
    var stored := Produce(compared.ring, compared.log, compared.producer);
    var announced := Produce(stored.ring, stored.log, stored.producer);
    var finished := Produce(announced.ring, announced.log, announced.producer);
    assert RunProducer(seen.ring, seen.log, seen.producer) == RunProducer(ring, log, Arrived(id));
    assert RunProducer(stored.ring, stored.log, stored.producer) == RunProducer(seen.ring, seen.log, seen.producer);
    assert RunProducer(finished.ring, finished.log, finished.producer) == RunProducer(stored.ring, stored.log, stored.producer);
  }

  /** Callbacks arriving one after the other, undisturbed. */
  function CallAll(ring: Ring, log: Log, ids: seq<int>): (side: Side)
    requires |ring.slots| == CAPACITY
    ensures |side.ring.slots| == CAPACITY
  {
    if ids == [] then Side(ring, log, Outside)
    else
      var earlier, id := CallAll(ring, log, ids[..|ids| - 1]), ids[|ids| - 1];
      CallLeaves(earlier.ring, earlier.log, id);
      RunProducer(earlier.ring, earlier.log, Arrived(id))
  }

  /** A run of callbacks with an identifier the SDK does not define. */
  function Strangers(n: nat): (ids: seq<int>)
    ensures |ids| == n
  {
    if n == 0 then [] else Strangers(n - 1) + [0]
  }

  lemma OneMoreCall(ring: Ring, log: Log, ids: seq<int>, id: int)
    requires |ring.slots| == CAPACITY && Translate(id) == None
    ensures var earlier, later := CallAll(ring, log, ids), CallAll(ring, log, ids + [id]);
            && later.log == earlier.log.(calls := earlier.log.calls + 1, unknowns := earlier.log.unknowns + 1)
            && later.ring == earlier.ring.(received := Plus(earlier.ring.received, 1), unknown := Plus(earlier.ring.unknown, 1))
  {
    assert (ids + [id])[..|ids|] == ids;
    var earlier := CallAll(ring, log, ids);
    CallLeaves(earlier.ring, earlier.log, id);
    hide RunProducer, Plus;
  }

  lemma {:induction false} StrangersOnlyCount(ring: Ring, log: Log, before: seq<int>, n: nat)
    requires |ring.slots| == CAPACITY
    ensures var start, side := CallAll(ring, log, before), CallAll(ring, log, before + Strangers(n));
            && side.log == start.log.(calls := start.log.calls + n, unknowns := start.log.unknowns + n)
            && side.ring == start.ring.(received := Plus(start.ring.received, n), unknown := Plus(start.ring.unknown, n))
    decreases n
  {
    hide Plus;
    var start := CallAll(ring, log, before);
    PlusAdds(start.ring.received, 0, 0);
    PlusAdds(start.ring.unknown, 0, 0);
    if n == 0 {
      assert before + [] == before;
    } else {
      StrangersOnlyCount(ring, log, before, n - 1);
      assert before + Strangers(n) == before + Strangers(n - 1) + [0];
      OneMoreCall(ring, log, before + Strangers(n - 1), 0);
      PlusAdds(start.ring.received, n - 1, 1);
      PlusAdds(start.ring.unknown, n - 1, 1);
    }
    hide CallAll;
  }

  /** Sequence numbers do stop increasing: accept one callback, count 2^64 - 2 unknown ones, accept another,
      and the second record carries 0 after the first carried 1. */
  lemma SequenceWrapsToZero(filler: Record, strangers: nat)
    requires strangers == WORD_LIMIT - 2
    ensures var log := CallAll(Ring(seq(CAPACITY, _ => filler), 0, 0, 0, 0, 0, 0, 0), EMPTY_LOG, [1] + Strangers(strangers) + [1]).log;
            && log.calls == WORD_LIMIT
            && log.accepted == [Record(EndFrame, NoHandoff, 1), Record(EndFrame, NoHandoff, 0)]
  {
    var ring := Ring(seq(CAPACITY, _ => filler), 0, 0, 0, 0, 0, 0, 0);
    assert [1][..0] == [];
    CallLeaves(ring, EMPTY_LOG, 1);
    EnqueuedOnce(ring, EMPTY_LOG, 1);
    var first := CallAll(ring, EMPTY_LOG, [1]);
    StrangersOnlyCount(ring, EMPTY_LOG, [1], strangers);
    var ids := [1] + Strangers(strangers) + [1];
    assert ids[..|ids| - 1] == [1] + Strangers(strangers);
    var middle := CallAll(ring, EMPTY_LOG, [1] + Strangers(strangers));
    CallLeaves(middle.ring, middle.log, 1);
  }

  /** An accepted callback moves the write position by one and leaves the read position. */
  lemma EnqueuedOnce(ring: Ring, log: Log, id: int)
    requires |ring.slots| == CAPACITY && Translate(id).Some? && Minus(ring.write, ring.read) < CAPACITY
    ensures var after := RunProducer(ring, log, Arrived(id)).ring;
            after.write == Plus(ring.write, 1) && after.read == ring.read && after.received == Plus(ring.received, 1)
  {
    CallbackIsItsSteps(ring, log, id);
  }

  function ConsumerRank(consumer: Consumer): (nat, nat) {
    match consumer
    case Resting => (0, 0)
    case Advanced(_) => (1, 0)
    case Copied(_, _) => (2, 0)
    case Copying(room, _, _, _, out) => (3, if |out| < room then room - |out| else 0)
    case SawRead(_, _) => (4, 0)
    case Draining(_) => (5, 0)
  }

  function RunConsumer(ring: Ring, log: Log, consumer: Consumer): (Ring, seq<Record>)
    requires |ring.slots| == CAPACITY
    decreases ConsumerRank(consumer).0, ConsumerRank(consumer).1
  {
    var drain := Consume(ring, log, consumer);
    if consumer.Advanced? then (drain.ring, consumer.out)
    else if drain.consumer.Resting? then (drain.ring, [])
    else RunConsumer(drain.ring, drain.log, drain.consumer)
  }

  lemma {:induction false} CopyIsItsSteps(ring: Ring, log: Log, room: nat, n: nat, limit: nat)
    requires |ring.slots| == CAPACITY && n <= DrainCount(ring, room)
    ensures var out := Waiting(ring.slots, ring.read, n);
            RunConsumer(ring, log, Copying(room, Plus(ring.read, n), ring.write, limit, out)) ==
            (Drained(ring, room), Waiting(ring.slots, ring.read, DrainCount(ring, room)))
    decreases DrainCount(ring, room) - n
  {
    var out := Waiting(ring.slots, ring.read, n);
    PositionMeetsLimit(ring.read, ring.write, n);
    PlusAdds(ring.read, n, 1);
    if n < DrainCount(ring, room) {
      WaitingAppend(ring.slots, ring.read, n);
      CopyIsItsSteps(ring, log, room, n + 1, limit);
      hide Plus, Minus, Waiting;
    } else if n > 0 {
      FinishIsItsSteps(ring, log, Plus(ring.read, n), out);
      hide Plus, Minus, Waiting;
    }
  }

  lemma FinishIsItsSteps(ring: Ring, log: Log, read: Word, out: seq<Record>)
    requires |ring.slots| == CAPACITY
    ensures RunConsumer(ring, log, Copied(read, out)) == (ring.(read := read, drained := Plus(ring.drained, |out|)), out)
  {
    var advanced := Consume(ring, log, Copied(read, out));
    assert RunConsumer(advanced.ring, advanced.log, Advanced(out)).1 == out;
  }

  /** With no one else running, the consumer's atomic steps drain what is waiting, up to the room given. */
  lemma DrainIsItsSteps(ring: Ring, log: Log, room: nat)
    requires |ring.slots| == CAPACITY
    ensures RunConsumer(ring, log, Draining(room)) ==
            (Drained(ring, room), Waiting(ring.slots, ring.read, DrainCount(ring, room)))
  {
    PlusAdds(ring.read, 0, 0);
    CopyIsItsSteps(ring, log, room, 0, |log.accepted|);
    var seen := Consume(ring, log, SawRead(room, ring.read));
    assert RunConsumer(seen.ring, seen.log, seen.consumer) == RunConsumer(ring, log, SawRead(room, ring.read));
  }

  // ---- The object ----

  class ProcessCallbackTarget {
    const events: array<Record>
    var read: Word
    var write: Word
    var received: Word
    var enqueued: Word
    var drained: Word
    var unknown: Word
    var overflow: Word
    var inFlight: Word32

    ghost predicate Valid()
    {
      events.Length == CAPACITY
    }

    /** Everything but the number of callbacks inside. */
    ghost function View(): Ring
      reads this, events
    {
      Ring(events[..], read, write, received, enqueued, drained, unknown, overflow)
    }

    constructor (filler: Record)
      ensures Valid() && fresh(events) && inFlight == 0
      ensures View() == Ring(seq(CAPACITY, _ => filler), 0, 0, 0, 0, 0, 0, 0)
    {
      events := new Record[CAPACITY](_ => filler);
      read, write, received, enqueued, drained, unknown, overflow, inFlight := 0, 0, 0, 0, 0, 0, 0, 0;
      new;
      assert events[..] == seq(CAPACITY, _ => filler);
    }

    method Reset()
      requires Valid()
      modifies this
      ensures View() == Ring(old(events[..]), 0, 0, 0, 0, 0, 0, 0) && inFlight == 0
    {
      read := 0;
      write := 0;
      received := 0;
      enqueued := 0;
      drained := 0;
      unknown := 0;
      overflow := 0;
      inFlight := 0;
    }

    method Enqueue(kind: EventKind, handoff: Handoff, sequence: Word)
      requires Valid()
      modifies this, events
      ensures View() == Enqueued(old(View()), Record(kind, handoff, sequence)) && inFlight == old(inFlight)
    {
      if Minus(write, read) >= CAPACITY {
        overflow := Plus(overflow, 1);
        return;
      }
      events[write % CAPACITY] := Record(kind, handoff, sequence);
      write := Plus(write, 1);
      enqueued := Plus(enqueued, 1);
    }

    /** The whole thunk, having loaded this target; `published` is what its second look finds. */
    method Thunk(id: int, published: bool)
      requires Valid()
      modifies this, events
      ensures View() == (if published then Delivered(old(View()), id) else old(View()))
      ensures inFlight == old(inFlight)
    {
      inFlight := (inFlight + 1) % 0x1_0000_0000;
      if published {
        Callback(id);
      }
      inFlight := (inFlight - 1) % 0x1_0000_0000;
    }

    /** The admitted part of the thunk. */
    method Callback(id: int)
      requires Valid()
      modifies this, events
      ensures View() == Delivered(old(View()), id) && inFlight == old(inFlight)
    {
      received := Plus(received, 1);
      match Translate(id) {
        case None => unknown := Plus(unknown, 1);
        case Some((kind, handoff)) => Enqueue(kind, handoff, received);
      }
    }

    method Drain(destination: array<Record>) returns (count: nat)
      requires Valid() && destination != events
      modifies this, destination
      ensures count == DrainCount(old(View()), destination.Length)
      ensures destination[..count] == Waiting(old(events[..]), old(read), count)
      ensures destination[count..] == old(destination[count..])
      ensures View() == Drained(old(View()), destination.Length) && inFlight == old(inFlight)
    {
      ghost var slots, start := events[..], read;
      var position := read;
      var limit := write;
      count := 0;
      PlusAdds(start, 0, 0);
      while position != limit && count < destination.Length
        modifies destination
        invariant count <= destination.Length && count <= Minus(limit, start)
        invariant position == Plus(start, count)
        invariant events[..] == slots
        invariant destination[..count] == Waiting(slots, start, count)
        invariant destination[count..] == old(destination[count..])
        decreases destination.Length - count
      {
        PositionMeetsLimit(start, limit, count);
        PlusAdds(start, count, 1);
        WaitingAppend(slots, start, count);
        hide Waiting, Plus, Minus;
        destination[count] := events[position % CAPACITY];
        position := Plus(position, 1);
        count := count + 1;
      }
      PositionMeetsLimit(start, limit, count);
      if count != 0 {
        read := position;
        drained := Plus(drained, count);
      }
    }
  }
}
