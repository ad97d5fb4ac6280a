/** The 64-slot single-producer single-consumer ring inside a callback target, one atomic access a step. */
module CallbackRing {
  import opened Words

  const CAPACITY: nat := 64

  datatype EventKind = EndFrame | BeginFrame | PreSave | PostLoad | OnInit | OnExit | PreReset | PostReset

  datatype Handoff = NoHandoff | Activate | BeginSave | RequestShutdown | VerifiedFrameBarrierObserved

  datatype Record = Record(kind: EventKind, handoff: Handoff, sequence: Word)

  /** The callback identifiers the SDK defines; any other integer is unknown. */
  function Translate(id: int): Option<(EventKind, Handoff)> {
    match id
    case 1 => Some((EndFrame, NoHandoff))
    case 2 => Some((BeginFrame, VerifiedFrameBarrierObserved))
    case 3 => Some((PreSave, BeginSave))
    case 4 => Some((PostLoad, NoHandoff))
    case 5 => Some((OnInit, Activate))
    case 6 => Some((OnExit, RequestShutdown))
    case 7 => Some((PreReset, NoHandoff))
    case 8 => Some((PostReset, NoHandoff))
    case _ => None
  }

  /** The eight identifiers in the order of their numbers, and the one kind behind each handoff. */
  lemma TranslateCodes(id: int)
    ensures Translate(id).Some? <==> 1 <= id <= 8
    ensures 1 <= id <= 8 ==>
              var (kind, handoff) := Translate(id).value;
              && kind == [EndFrame, BeginFrame, PreSave, PostLoad, OnInit, OnExit, PreReset, PostReset][id - 1]
              && (handoff == Activate <==> kind == OnInit)
              && (handoff == BeginSave <==> kind == PreSave)
              && (handoff == RequestShutdown <==> kind == OnExit)
              && (handoff == VerifiedFrameBarrierObserved <==> kind == BeginFrame)
  {
  }

  /** The ring and the counters of a target, exactly as stored: every position and counter is a 64-bit
      word that wraps. */
  datatype Ring = Ring(
    slots: seq<Record>, read: Word, write: Word,
    received: Word, enqueued: Word, drained: Word, unknown: Word, overflow: Word)

  /** What has happened since the last reset, for the proof: the accepted records in order with their
      unwrapped serial numbers, the records handed to drains in order, and unwrapped counts. */
  datatype Log = Log(accepted: seq<Record>, serials: seq<nat>, taken: seq<Record>, calls: nat, unknowns: nat, overflows: nat)

  const EMPTY_LOG := Log([], [], [], 0, 0, 0)

  /** Where the producer is between admission and leaving. */
  datatype Producer =
    | Outside
    | Arrived(id: int)
    | Numbered(id: int, sequence: Word)
    | SawWrite(record: Record, write: Word)
    | Overflowing
    | HasRoom(record: Record, write: Word)
    | Stored(record: Record, write: Word)
    | Announced
    | Finished

  /** Where the consumer is in a drain; `limit` is the unwrapped write position it saw. */
  datatype Consumer =
    | Resting
    | Draining(room: nat)
    | SawRead(room: nat, read: Word)
    | Copying(room: nat, read: Word, write: Word, limit: nat, out: seq<Record>)
    | Copied(read: Word, out: seq<Record>)
    | Advanced(out: seq<Record>)

  function Plus(x: Word, n: nat): Word {
    (x + n) % WORD_LIMIT
  }

  function Minus(x: Word, y: Word): Word {
    if x >= y then x - y else x - y + WORD_LIMIT
  }

  // ---- The producer's steps ----

  datatype Side = Side(ring: Ring, log: Log, producer: Producer)

  /** One atomic access by the producer. */
  function Produce(ring: Ring, log: Log, producer: Producer): Side
    requires |ring.slots| == CAPACITY
  {
    match producer
    case Outside | Finished => Side(ring, log, producer)
    case Arrived(id) =>
      Side(ring.(received := Plus(ring.received, 1)), log.(calls := log.calls + 1), Numbered(id, Plus(ring.received, 1)))
    case Numbered(id, sequence) =>
      (match Translate(id)
       case None => Side(ring.(unknown := Plus(ring.unknown, 1)), log.(unknowns := log.unknowns + 1), Finished)
       case Some((kind, handoff)) => Side(ring, log, SawWrite(Record(kind, handoff, sequence), ring.write)))
    case SawWrite(record, write) =>
      Side(ring, log, if Minus(write, ring.read) >= CAPACITY then Overflowing else HasRoom(record, write))
    case Overflowing => Side(ring.(overflow := Plus(ring.overflow, 1)), log.(overflows := log.overflows + 1), Finished)
    case HasRoom(record, write) => Side(ring.(slots := ring.slots[write % CAPACITY := record]), log, Stored(record, write))
    case Stored(record, write) =>
      Side(ring.(write := Plus(write, 1)), log.(accepted := log.accepted + [record], serials := log.serials + [log.calls]), Announced)
    case Announced => Side(ring.(enqueued := Plus(ring.enqueued, 1)), log, Finished)
  }

  // ---- The consumer's steps ----

  datatype Drain = Drain(ring: Ring, log: Log, consumer: Consumer)

  /** One atomic access, or one record copied, by the consumer. */
  function Consume(ring: Ring, log: Log, consumer: Consumer): Drain
    requires |ring.slots| == CAPACITY
  {
    match consumer
    case Resting => Drain(ring, log, Resting)
    case Draining(room) => Drain(ring, log, SawRead(room, ring.read))
    case SawRead(room, read) => Drain(ring, log, Copying(room, read, ring.write, |log.accepted|, []))
    case Copying(room, read, write, limit, out) =>
      if read != write && |out| < room then
        Drain(ring, log, Copying(room, Plus(read, 1), write, limit, out + [ring.slots[read % CAPACITY]]))
      else Drain(ring, log, if out == [] then Resting else Copied(read, out))
    case Copied(read, out) => Drain(ring.(read := read), log.(taken := log.taken + out), Advanced(out))
    case Advanced(out) => Drain(ring.(drained := Plus(ring.drained, |out|)), log, Resting)
  }

  // ---- The invariant ----

  predicate Increasing(serials: seq<nat>) {
    forall i, j | 0 <= i < j < |serials| :: serials[i] < serials[j]
  }

  /** A call counted but not yet accounted for. */
  function InHand(producer: Producer): nat {
    match producer
    case Numbered(_, _) | SawWrite(_, _) | Overflowing | HasRoom(_, _) | Stored(_, _) => 1
    case _ => 0
  }

  /** The words stored are the unwrapped counts modulo 2^64. */
  predicate Counted(ring: Ring, log: Log, producer: Producer, consumer: Consumer) {
    && ring.received == log.calls % WORD_LIMIT
    && ring.unknown == log.unknowns % WORD_LIMIT
    && ring.overflow == log.overflows % WORD_LIMIT
    && |log.accepted| >= (if producer.Announced? then 1 else 0)
    && ring.enqueued == (|log.accepted| - if producer.Announced? then 1 else 0) % WORD_LIMIT
    && |log.taken| >= (if consumer.Advanced? then |consumer.out| else 0)
    && ring.drained == (|log.taken| - if consumer.Advanced? then |consumer.out| else 0) % WORD_LIMIT
    && log.calls == |log.accepted| + log.unknowns + log.overflows + InHand(producer)
  }

  /** Between the two positions lie at most 64 records, each in its slot and undamaged. */
  predicate Queued(ring: Ring, log: Log) {
    && |ring.slots| == CAPACITY
    && log.taken <= log.accepted
    && |log.accepted| - |log.taken| <= CAPACITY
    && ring.write == |log.accepted| % WORD_LIMIT
    && ring.read == |log.taken| % WORD_LIMIT
    && forall j | |log.taken| <= j < |log.accepted| :: ring.slots[j % CAPACITY] == log.accepted[j]
  }

  /** Sequence numbers are strictly increasing serial numbers, wrapped. */
  predicate Serialized(log: Log) {
    && |log.serials| == |log.accepted|
    && Increasing(log.serials)
    && forall j | 0 <= j < |log.serials| :: 1 <= log.serials[j] <= log.calls && log.accepted[j].sequence == log.serials[j] % WORD_LIMIT
  }

  predicate ProducerOk(ring: Ring, log: Log, producer: Producer) {
    match producer
    case Numbered(_, sequence) => sequence == log.calls % WORD_LIMIT && Fresh(log)
    case SawWrite(record, write) => record.sequence == log.calls % WORD_LIMIT && Fresh(log) && write == ring.write
    case HasRoom(record, write) =>
      record.sequence == log.calls % WORD_LIMIT && Fresh(log) && write == ring.write && |log.accepted| - |log.taken| < CAPACITY
    case Stored(record, write) =>
      && record.sequence == log.calls % WORD_LIMIT && Fresh(log) && write == ring.write
      && |log.accepted| - |log.taken| < CAPACITY
      && |ring.slots| == CAPACITY && ring.slots[write % CAPACITY] == record
    case _ => true
  }

  /** The call in hand is newer than every accepted one. */
  predicate Fresh(log: Log) {
    log.calls >= 1 && forall j | 0 <= j < |log.serials| :: log.serials[j] < log.calls
  }

  predicate ConsumerOk(ring: Ring, log: Log, consumer: Consumer) {
    match consumer
    case SawRead(_, read) => read == ring.read
    case Copying(room, read, write, limit, out) =>
      && |log.taken| + |out| <= limit <= |log.accepted|
      && |out| <= room
      && out == log.accepted[|log.taken|..|log.taken| + |out|]
      && read == (|log.taken| + |out|) % WORD_LIMIT
      && write == limit % WORD_LIMIT
    case Copied(read, out) =>
      && out != [] && |log.taken| + |out| <= |log.accepted|
      && out == log.accepted[|log.taken|..|log.taken| + |out|]
      && read == (|log.taken| + |out|) % WORD_LIMIT
    case _ => true
  }

  /** Everything that holds between any two atomic steps. */
  predicate Sound(ring: Ring, log: Log, producer: Producer, consumer: Consumer) {
    && Queued(ring, log)
    && Counted(ring, log, producer, consumer)
    && Serialized(log)
    && ProducerOk(ring, log, producer)
    && ConsumerOk(ring, log, consumer)
  }

  // ---- Wrapping arithmetic ----

  lemma PlusWraps(n: nat, k: nat)
    ensures Plus(n % WORD_LIMIT, k) == (n + k) % WORD_LIMIT
  {
    assert n + k == WORD_LIMIT * (n / WORD_LIMIT) + (n % WORD_LIMIT + k);
    WordMultipleDropsOut(n / WORD_LIMIT, n % WORD_LIMIT + k);
  }

  /** 64 divides 2^64, so a wrapped position picks the same slot as the unwrapped one. */
  lemma SlotSurvivesWrap(n: nat)
    ensures n % WORD_LIMIT % CAPACITY == n % CAPACITY
  {
    var q := n / WORD_LIMIT;
    assert n == CAPACITY * (q * (WORD_LIMIT / CAPACITY)) + n % WORD_LIMIT;
    MultipleDropsOut(q * (WORD_LIMIT / CAPACITY), n % WORD_LIMIT);
  }

  lemma MultipleDropsOut(k: nat, r: nat)
    ensures (CAPACITY * k + r) % CAPACITY == r % CAPACITY
  {
  }

  /** The wrapped difference of two positions at most 64 apart is their true difference. */
  lemma DifferenceSurvivesWrap(n: nat, m: nat)
    requires m <= n <= m + CAPACITY
    ensures Minus(n % WORD_LIMIT, m % WORD_LIMIT) == n - m
  {
  }

  /** Positions less than 64 apart fall into different slots. */
  lemma NearbySlotsDiffer(n: nat, m: nat)
    requires m < n < m + CAPACITY
    ensures n % CAPACITY != m % CAPACITY
  {
  }

  // ---- Preservation ----

  /** Counters are no part of the queue: changing them keeps it, and what the consumer knows of it. */
  lemma CountersAside(ring: Ring, log: Log, after: Ring, later: Log, consumer: Consumer)
    requires after.slots == ring.slots && after.read == ring.read && after.write == ring.write
    requires later.accepted == log.accepted && later.taken == log.taken && later.serials == log.serials && later.calls >= log.calls
    ensures Queued(ring, log) ==> Queued(after, later)
    ensures ConsumerOk(ring, log, consumer) ==> ConsumerOk(after, later, consumer)
    ensures Serialized(log) ==> Serialized(later)
  {
  }

  lemma StoreKeepsQueued(ring: Ring, log: Log, record: Record)
    requires Queued(ring, log) && |log.accepted| - |log.taken| < CAPACITY
    ensures Queued(ring.(slots := ring.slots[ring.write % CAPACITY := record]), log)
  {
    SlotSurvivesWrap(|log.accepted|);
    forall j | |log.taken| <= j < |log.accepted|
      ensures j % CAPACITY != ring.write % CAPACITY
    {
      NearbySlotsDiffer(|log.accepted|, j);
    }
  }

  lemma AnnounceKeepsQueued(ring: Ring, log: Log, record: Record)
    requires Queued(ring, log) && |log.accepted| - |log.taken| < CAPACITY
    requires ring.slots[ring.write % CAPACITY] == record
    ensures Queued(ring.(write := Plus(ring.write, 1)), log.(accepted := log.accepted + [record], serials := log.serials + [log.calls]))
  {
    SlotSurvivesWrap(|log.accepted|);
    PlusWraps(|log.accepted|, 1);
  }

  lemma ArrivePreserves(ring: Ring, log: Log, producer: Producer, consumer: Consumer)
    requires Sound(ring, log, producer, consumer) && producer.Arrived?
    ensures var after := Produce(ring, log, producer); Sound(after.ring, after.log, after.producer, consumer)
  {
    PlusWraps(log.calls, 1);
    var after := Produce(ring, log, producer);
    CountersAside(ring, log, after.ring, after.log, consumer);
    hide Queued, ConsumerOk;
  }

  lemma ClassifyPreserves(ring: Ring, log: Log, producer: Producer, consumer: Consumer)
    requires Sound(ring, log, producer, consumer) && producer.Numbered?
    ensures var after := Produce(ring, log, producer); Sound(after.ring, after.log, after.producer, consumer)
  {
    PlusWraps(log.unknowns, 1);
    var after := Produce(ring, log, producer);
    CountersAside(ring, log, after.ring, after.log, consumer);
    hide Queued, ConsumerOk, Serialized;
  }

  lemma ComparePreserves(ring: Ring, log: Log, producer: Producer, consumer: Consumer)
    requires Sound(ring, log, producer, consumer) && producer.SawWrite?
    ensures var after := Produce(ring, log, producer); Sound(after.ring, after.log, after.producer, consumer)
  {
    DifferenceSurvivesWrap(|log.accepted|, |log.taken|);
  }

  lemma OverflowPreserves(ring: Ring, log: Log, producer: Producer, consumer: Consumer)
    requires Sound(ring, log, producer, consumer) && producer.Overflowing?
    ensures var after := Produce(ring, log, producer); Sound(after.ring, after.log, after.producer, consumer)
  {
    PlusWraps(log.overflows, 1);
    var after := Produce(ring, log, producer);
    CountersAside(ring, log, after.ring, after.log, consumer);
    hide Queued, ConsumerOk, Serialized;
  }

  lemma StorePreserves(ring: Ring, log: Log, producer: Producer, consumer: Consumer)
    requires Sound(ring, log, producer, consumer) && producer.HasRoom?
    ensures var after := Produce(ring, log, producer); Sound(after.ring, after.log, after.producer, consumer)
  {
    StoreKeepsQueued(ring, log, producer.record);
  }

  lemma PublishPreserves(ring: Ring, log: Log, producer: Producer, consumer: Consumer)
    requires Sound(ring, log, producer, consumer) && producer.Stored?
    ensures var after := Produce(ring, log, producer); Sound(after.ring, after.log, after.producer, consumer)
  {
    AnnounceKeepsQueued(ring, log, producer.record);
    var after := Produce(ring, log, producer);
    AppendKeepsConsumer(ring, log, after.ring, after.log, producer.record, consumer);
    AppendKeepsSerialized(log, producer.record);
    hide Queued, ConsumerOk, Serialized;
  }

  lemma AppendKeepsConsumer(ring: Ring, log: Log, after: Ring, later: Log, record: Record, consumer: Consumer)
    requires later.accepted == log.accepted + [record] && later.taken == log.taken && after.read == ring.read
    ensures ConsumerOk(ring, log, consumer) ==> ConsumerOk(after, later, consumer)
  {
  }

  lemma AppendKeepsSerialized(log: Log, record: Record)
    requires Serialized(log) && Fresh(log) && record.sequence == log.calls % WORD_LIMIT
    ensures Serialized(log.(accepted := log.accepted + [record], serials := log.serials + [log.calls]))
  {
  }

  lemma AnnouncePreserves(ring: Ring, log: Log, producer: Producer, consumer: Consumer)
    requires Sound(ring, log, producer, consumer) && producer.Announced?
    ensures var after := Produce(ring, log, producer); Sound(after.ring, after.log, after.producer, consumer)
  {
    var after := Produce(ring, log, producer);
    CountersAside(ring, log, after.ring, after.log, consumer);
    AnnouncedCounts(ring, log, consumer);
    hide Queued, ConsumerOk, Serialized, Counted, Plus;
  }

  lemma AnnouncedCounts(ring: Ring, log: Log, consumer: Consumer)
    requires Counted(ring, log, Announced, consumer)
    ensures Counted(ring.(enqueued := Plus(ring.enqueued, 1)), log, Finished, consumer)
  {
    PlusWraps(|log.accepted| - 1, 1);
    hide Plus;
  }

  /** No producer step, in any state the invariant allows, breaks the invariant. */
  lemma ProducePreserves(ring: Ring, log: Log, producer: Producer, consumer: Consumer)
    requires Sound(ring, log, producer, consumer)
    ensures |ring.slots| == CAPACITY
    ensures var after := Produce(ring, log, producer); Sound(after.ring, after.log, after.producer, consumer)
  {
    match producer
    case Outside | Finished =>
    case Arrived(_) => ArrivePreserves(ring, log, producer, consumer);
    case Numbered(_, _) => ClassifyPreserves(ring, log, producer, consumer);
    case SawWrite(_, _) => ComparePreserves(ring, log, producer, consumer);
    case Overflowing => OverflowPreserves(ring, log, producer, consumer);
    case HasRoom(_, _) => StorePreserves(ring, log, producer, consumer);
    case Stored(_, _) => PublishPreserves(ring, log, producer, consumer);
    case Announced => AnnouncePreserves(ring, log, producer, consumer);
  }

  lemma CopyOne(ring: Ring, log: Log, room: nat, read: Word, write: Word, limit: nat, out: seq<Record>)
    requires Queued(ring, log) && ConsumerOk(ring, log, Copying(room, read, write, limit, out))
    requires read != write && |out| < room
    ensures ConsumerOk(ring, log, Copying(room, Plus(read, 1), write, limit, out + [ring.slots[read % CAPACITY]]))
  {
    var position := |log.taken| + |out|;
    SlotSurvivesWrap(position);
    PlusWraps(position, 1);
    assert ring.slots[read % CAPACITY] == log.accepted[position];
  }

  lemma AdvanceKeepsQueued(ring: Ring, log: Log, read: Word, out: seq<Record>)
    requires Queued(ring, log) && ConsumerOk(ring, log, Copied(read, out))
    ensures Queued(ring.(read := read), log.(taken := log.taken + out))
  {
  }

  lemma SeePreserves(ring: Ring, log: Log, producer: Producer, consumer: Consumer)
    requires Sound(ring, log, producer, consumer) && consumer.SawRead?
    ensures var after := Consume(ring, log, consumer); Sound(after.ring, after.log, producer, after.consumer)
  {
    assert [] == log.accepted[|log.taken|..|log.taken|];
    CountedIgnores(ring, log, producer, consumer, Consume(ring, log, consumer).consumer);
    hide Counted, Serialized, ProducerOk;
  }

  /** Only a drain that has advanced but not yet added to the counter shows in the counters. */
  lemma CountedIgnores(ring: Ring, log: Log, producer: Producer, consumer: Consumer, other: Consumer)
    requires Counted(ring, log, producer, consumer) && !consumer.Advanced? && !other.Advanced?
    ensures Counted(ring, log, producer, other)
  {
  }

  lemma CopyPreserves(ring: Ring, log: Log, producer: Producer, consumer: Consumer)
    requires Sound(ring, log, producer, consumer) && consumer.Copying?
    ensures var after := Consume(ring, log, consumer); Sound(after.ring, after.log, producer, after.consumer)
  {
    var Copying(room, read, write, limit, out) := consumer;
    if read != write && |out| < room {
      CopyOne(ring, log, room, read, write, limit, out);
    }
    CountedIgnores(ring, log, producer, consumer, Consume(ring, log, consumer).consumer);
    assert |ring.slots| == CAPACITY;
    hide Queued, Counted, Serialized, ProducerOk, Plus;
  }

  lemma AdvancePreserves(ring: Ring, log: Log, producer: Producer, consumer: Consumer)
    requires Sound(ring, log, producer, consumer) && consumer.Copied?
    ensures var after := Consume(ring, log, consumer); Sound(after.ring, after.log, producer, after.consumer)
  {
    AdvanceKeepsQueued(ring, log, consumer.read, consumer.out);
  }

  lemma AccountPreserves(ring: Ring, log: Log, producer: Producer, consumer: Consumer)
    requires Sound(ring, log, producer, consumer) && consumer.Advanced?
    ensures var after := Consume(ring, log, consumer); Sound(after.ring, after.log, producer, after.consumer)
  {
    var after := Consume(ring, log, consumer);
    CountersAside(ring, log, after.ring, after.log, Resting);
    AccountedCounts(ring, log, producer, consumer.out);
    hide Queued, Serialized, Counted, Plus;
  }

  lemma AccountedCounts(ring: Ring, log: Log, producer: Producer, out: seq<Record>)
    requires Counted(ring, log, producer, Advanced(out))
    ensures Counted(ring.(drained := Plus(ring.drained, |out|)), log, producer, Resting)
  {
    PlusWraps(|log.taken| - |out|, |out|);
    hide Plus;
  }

  /** No consumer step, in any state the invariant allows, breaks the invariant. */
  lemma ConsumePreserves(ring: Ring, log: Log, producer: Producer, consumer: Consumer)
    requires Sound(ring, log, producer, consumer)
    ensures |ring.slots| == CAPACITY
    ensures var after := Consume(ring, log, consumer); Sound(after.ring, after.log, producer, after.consumer)
  {
    match consumer
    case Resting | Draining(_) =>
    case SawRead(_, _) => SeePreserves(ring, log, producer, consumer);
    case Copying(_, _, _, _, _) => CopyPreserves(ring, log, producer, consumer);
    case Copied(_, _) => AdvancePreserves(ring, log, producer, consumer);
    case Advanced(_) => AccountPreserves(ring, log, producer, consumer);
  }

  // ---- What the invariant gives ----

  /** A call that was counted and is no longer in hand was enqueued, unknown or lost to overflow, also in
      the wrapped counters. */
  lemma CountersBalance(ring: Ring, log: Log, producer: Producer, consumer: Consumer)
    requires Sound(ring, log, producer, consumer) && (producer.Outside? || producer.Finished?)
    ensures ring.received == (ring.enqueued + ring.unknown + ring.overflow) % WORD_LIMIT
  {
    SumWraps(|log.accepted|, log.unknowns, log.overflows);
  }

  lemma SumWraps(a: nat, b: nat, c: nat)
    ensures (a % WORD_LIMIT + b % WORD_LIMIT + c % WORD_LIMIT) % WORD_LIMIT == (a + b + c) % WORD_LIMIT
  {
    var low := a % WORD_LIMIT + b % WORD_LIMIT + c % WORD_LIMIT;
    var high := a / WORD_LIMIT + b / WORD_LIMIT + c / WORD_LIMIT;
    assert a + b + c == WORD_LIMIT * high + low;
    WordMultipleDropsOut(high, low);
  }

  lemma {:induction false} WordMultipleDropsOut(k: nat, r: nat)
    ensures (WORD_LIMIT * k + r) % WORD_LIMIT == r % WORD_LIMIT
  {
    if k > 0 {
      WordMultipleDropsOut(k - 1, r);
      assert WORD_LIMIT * k + r == (WORD_LIMIT * (k - 1) + r) + WORD_LIMIT;
    }
  }

  /** Everything drained so far is the beginning of everything accepted, in order; a record waiting to be
      drained is intact; and the sequence numbers of the accepted records are strictly increasing serial
      numbers modulo 2^64, so they strictly increase themselves until 2^64 calls have been counted. */
  lemma DrainedIsPrefix(ring: Ring, log: Log, producer: Producer, consumer: Consumer)
    requires Sound(ring, log, producer, consumer)
    ensures log.taken <= log.accepted && |log.accepted| - |log.taken| <= CAPACITY
    ensures Minus(ring.write, ring.read) == |log.accepted| - |log.taken|
    ensures forall j | |log.taken| <= j < |log.accepted| :: ring.slots[j % CAPACITY] == log.accepted[j]
    ensures Serialized(log)
    ensures log.calls < WORD_LIMIT ==>
              forall i, j | 0 <= i < j < |log.accepted| :: log.accepted[i].sequence < log.accepted[j].sequence
  {
    hide Counted, ProducerOk, ConsumerOk, Minus, Serialized;
    DifferenceSurvivesWrap(|log.accepted|, |log.taken|);
    if log.calls < WORD_LIMIT {
      SequencesIncrease(log);
    }
  }

  /** Fewer than 2^64 calls come between one accepted record and the next. */
  predicate GapsFit(log: Log) {
    forall j | 0 <= j < |log.serials| - 1 :: log.serials[j + 1] - log.serials[j] < WORD_LIMIT
  }

  /** Two accepted records fewer than 2^64 calls apart keep their order exactly when the count of calls did
      not pass a multiple of 2^64 from one to the other. */
  lemma OrderedIffSameRound(log: Log, i: nat, j: nat)
    requires Serialized(log) && i < j < |log.accepted| && log.serials[j] - log.serials[i] < WORD_LIMIT
    ensures log.accepted[i].sequence < log.accepted[j].sequence <==>
            log.serials[i] / WORD_LIMIT == log.serials[j] / WORD_LIMIT
  {
    var a, b := log.serials[i], log.serials[j];
    assert a < b;
    assert a == WORD_LIMIT * (a / WORD_LIMIT) + a % WORD_LIMIT;
    assert b == WORD_LIMIT * (b / WORD_LIMIT) + b % WORD_LIMIT;
  }

  /** All accepted sequence numbers strictly increase exactly when the first and the last record were
      counted in the same round of 2^64 calls. */
  lemma SequencesIncreaseIff(log: Log)
    requires Serialized(log) && log.accepted != [] && GapsFit(log)
    ensures (forall i, j | 0 <= i < j < |log.accepted| :: log.accepted[i].sequence < log.accepted[j].sequence) <==>
            log.serials[0] / WORD_LIMIT == log.serials[|log.serials| - 1] / WORD_LIMIT
  {
    var last := |log.serials| - 1;
    if forall i, j | 0 <= i < j < |log.accepted| :: log.accepted[i].sequence < log.accepted[j].sequence {
      SameRoundThroughout(log, last);
    }
    if log.serials[0] / WORD_LIMIT == log.serials[last] / WORD_LIMIT {
      forall i: nat, j: nat | i < j < |log.accepted|
        ensures log.accepted[i].sequence < log.accepted[j].sequence
      {
        SameRoundBetween(log.serials[0], log.serials[i], log.serials[j], log.serials[last]);
        OrderedIffSameRound(log, i, j);
      }
    }
  }

  lemma {:induction false} SameRoundThroughout(log: Log, k: nat)
    requires Serialized(log) && GapsFit(log) && k < |log.accepted|
    requires forall i, j | 0 <= i < j < |log.accepted| :: log.accepted[i].sequence < log.accepted[j].sequence
    ensures log.serials[0] / WORD_LIMIT == log.serials[k] / WORD_LIMIT
  {
    if k > 0 {
      SameRoundThroughout(log, k - 1);
      OrderedIffSameRound(log, k - 1, k);
    }
  }

  lemma SameRoundBetween(first: nat, a: nat, b: nat, last: nat)
    requires first <= a <= b <= last && first / WORD_LIMIT == last / WORD_LIMIT
    ensures a / WORD_LIMIT == b / WORD_LIMIT && b - a < WORD_LIMIT
  {
  }

  /** The bound is exact: up to 2^64 calls, the record about to be published carries the largest sequence
      number so far precisely when the count has not reached 2^64. */
  lemma NextSequenceIsLargestIff(ring: Ring, log: Log, producer: Producer, consumer: Consumer)
    requires Sound(ring, log, producer, consumer) && producer.Stored? && log.accepted != [] && log.calls <= WORD_LIMIT
    ensures (forall j | 0 <= j < |log.accepted| :: log.accepted[j].sequence < producer.record.sequence) <==>
            log.calls < WORD_LIMIT
  {
    hide Queued, Counted, ConsumerOk, Increasing;
    if log.calls < WORD_LIMIT {
      forall j | 0 <= j < |log.accepted|
        ensures log.accepted[j].sequence < producer.record.sequence
      {
        assert log.serials[j] < log.calls;
      }
    } else {
      assert producer.record.sequence == 0 <= log.accepted[0].sequence;
    }
  }

  lemma SequencesIncrease(log: Log)
    requires Serialized(log) && log.calls < WORD_LIMIT
    ensures |log.serials| == |log.accepted|
    ensures forall i, j | 0 <= i < j < |log.accepted| :: log.accepted[i].sequence < log.accepted[j].sequence
  {
    forall i, j | 0 <= i < j < |log.accepted|
      ensures log.accepted[i].sequence < log.accepted[j].sequence
    {
      assert log.serials[i] < log.serials[j] <= log.calls;
    }
  }
}
