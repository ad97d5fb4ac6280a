/** Callback sessions: one host thread inside the thunk, one integration thread running session
    operations, interleaved at every atomic access. */
module CallbackSession {
  import opened Words
  import opened CallbackRing

  const TARGETS: nat := 2
  const RESET_STORES: nat := 8

  /** A target: its ring, the proof's log of it, and the number of callbacks inside. */
  datatype Target = Target(ring: Ring, log: Log, inFlight: Word32)

  datatype Diagnostics = Diagnostics(received: Word, enqueued: Word, drained: Word, unknown: Word, overflow: Word)

  const NOTHING := Diagnostics(0, 0, 0, 0, 0)

  datatype SessionState = Idle | WaitingForRenderInfo | WaitingForProcessSlot | Active | Stopped | Failed

  datatype Session = Session(state: SessionState, target: nat, owns: bool, registered: bool, terminal: Diagnostics)

  /** The host thread: outside, holding a loaded target, counted in it, admitted to it, or turned away. */
  datatype Thunk =
    | Away
    | Loaded(target: nat, id: int)
    | Entered(target: nat, id: int)
    | Inside(target: nat, producer: Producer)
    | Leaving(target: nat)

  /** The integration thread, within an operation on session `i`. */
  datatype Worker =
    | Ready
    | Reserving(i: nat)
    | Resetting(i: nat, stores: nat)
    | Publishing(i: nat)
    | Registering(i: nat)
    | Unregistering(i: nat, final: SessionState)
    | Unpublishing(i: nat, final: SessionState)
    | Waiting(i: nat, final: SessionState)
    | Snapshotting(i: nat, final: SessionState, loads: nat, seen: Diagnostics)
    | Releasing(i: nat, final: SessionState, seen: Diagnostics)
    | Draining(i: nat, consumer: Consumer)

  /** `owner`, `registrations` and `unregistrations` record history for the proof. */
  datatype System = System(
    targets: seq<Target>, published: Option<nat>, reserved: bool, nextTarget: nat, sessions: seq<Session>,
    thunk: Thunk, worker: Worker, owner: Option<nat>, registrations: nat, unregistrations: nat)

  datatype Validation = HostAccepted | HostNotReady | HostInvalid

  datatype Command =
    | Bootstrap(i: nat, resolved: bool, validation: Validation)
    | Retry(i: nat, renderReady: bool)
    | Stop(i: nat)
    | Fail(i: nat)
    | Drain(i: nat, room: nat)

  datatype Action = HostCalls(id: int) | ThunkRuns | Begin(command: Command) | WorkerRuns

  // ---- The host thread ----

  function SetTarget(s: System, t: nat, target: Target): System
    requires t < |s.targets|
  {
    s.(targets := s.targets[t := target])
  }

  /** The next access of the thunk. */
  function RunThunk(s: System): System
    requires Shaped(s)
  {
    match s.thunk
    case Away => s
    case Loaded(t, id) =>
      SetTarget(s, t, s.targets[t].(inFlight := (s.targets[t].inFlight + 1) % 0x1_0000_0000)).(thunk := Entered(t, id))
    case Entered(t, id) => s.(thunk := if s.published == Some(t) then Inside(t, Arrived(id)) else Leaving(t))
    case Inside(t, producer) =>
      if producer.Finished? then Depart(s, t)
      else
        var side := Produce(s.targets[t].ring, s.targets[t].log, producer);
        SetTarget(s, t, s.targets[t].(ring := side.ring, log := side.log)).(thunk := Inside(t, side.producer))
    case Leaving(t) => Depart(s, t)
  }

  function Depart(s: System, t: nat): System
    requires t < |s.targets|
  {
    SetTarget(s, t, s.targets[t].(inFlight := (s.targets[t].inFlight - 1) % 0x1_0000_0000)).(thunk := Away)
  }

  // ---- The integration thread ----

  function SetSession(s: System, i: nat, session: Session): System
    requires i < |s.sessions|
  {
    s.(sessions := s.sessions[i := session])
  }

  function Terminate(s: System, i: nat, final: SessionState): System
    requires i < |s.sessions|
  {
    if s.sessions[i].owns then s.(worker := Unregistering(i, final))
    else SetSession(s, i, s.sessions[i].(state := final))
  }

  /** Starting an operation: everything it decides before its first shared access. */
  function Start(s: System, command: Command): System
    requires command.i < |s.sessions|
  {
    var i := command.i;
    var session := s.sessions[i];
    match command
    case Bootstrap(_, resolved, validation) =>
      if session.state != Idle then s
      else if !resolved then SetSession(s, i, session.(state := Failed))
      else if validation == HostNotReady then SetSession(s, i, session.(state := WaitingForRenderInfo))
      else if validation != HostAccepted then SetSession(s, i, session.(state := Failed))
      else s.(worker := Reserving(i))
    case Retry(_, renderReady) =>
      if session.state != WaitingForRenderInfo && session.state != WaitingForProcessSlot then s
      else if !renderReady then SetSession(s, i, session.(state := WaitingForRenderInfo))
      else s.(worker := Reserving(i))
    case Stop(_) => if session.state == Stopped then s else Terminate(s, i, Stopped)
    case Fail(_) => if session.state == Stopped then s else Terminate(s, i, Failed)
    case Drain(_, room) =>
      if session.owns && session.state == Active then s.(worker := Worker.Draining(i, Consumer.Draining(room))) else s
  }

  /** The `k`-th store of a reset. */
  function ResetStore(target: Target, k: nat): Target {
    match k
    case 0 => target.(ring := target.ring.(read := 0))
    case 1 => target.(ring := target.ring.(write := 0))
    case 2 => target.(ring := target.ring.(received := 0))
    case 3 => target.(ring := target.ring.(enqueued := 0))
    case 4 => target.(ring := target.ring.(drained := 0))
    case 5 => target.(ring := target.ring.(unknown := 0))
    case 6 => target.(ring := target.ring.(overflow := 0))
    case _ => target.(inFlight := 0, log := EMPTY_LOG)
  }

  /** The `k`-th load of a diagnostics snapshot. */
  function Load(seen: Diagnostics, ring: Ring, k: nat): Diagnostics {
    match k
    case 0 => seen.(received := ring.received)
    case 1 => seen.(enqueued := ring.enqueued)
    case 2 => seen.(drained := ring.drained)
    case 3 => seen.(unknown := ring.unknown)
    case _ => seen.(overflow := ring.overflow)
  }

  /** The next access of the integration thread. */
  function RunWorker(s: System): System
    requires Shaped(s)
  {
    match s.worker
    case Ready => s
    case Reserving(i) =>
      var session := s.sessions[i];
      if s.reserved then SetSession(s, i, session.(state := WaitingForProcessSlot)).(worker := Ready)
      else
        SetSession(s, i, session.(target := s.nextTarget)).(
          reserved := true, owner := Some(i), nextTarget := (s.nextTarget + 1) % TARGETS, worker := Resetting(i, 0))
    case Resetting(i, stores) =>
      var t := s.sessions[i].target;
      SetTarget(s, t, ResetStore(s.targets[t], stores)).(
        worker := if stores + 1 < RESET_STORES then Resetting(i, stores + 1) else Publishing(i))
    case Publishing(i) =>
      SetSession(s, i, s.sessions[i].(terminal := NOTHING, owns := true)).(
        published := Some(s.sessions[i].target), worker := Registering(i))
    case Registering(i) =>
      SetSession(s, i, s.sessions[i].(registered := true, state := Active)).(
        registrations := s.registrations + 1, worker := Ready)
    case Unregistering(i, final) =>
      var unregister := s.sessions[i].registered;
      SetSession(s, i, s.sessions[i].(registered := false)).(
        unregistrations := s.unregistrations + if unregister then 1 else 0, worker := Unpublishing(i, final))
    case Unpublishing(i, final) =>
      s.(published := if s.published == Some(s.sessions[i].target) then None else s.published, worker := Waiting(i, final))
    case Waiting(i, final) =>
      if s.targets[s.sessions[i].target].inFlight != 0 then s else s.(worker := Snapshotting(i, final, 0, NOTHING))
    case Snapshotting(i, final, loads, seen) =>
      var after := Load(seen, s.targets[s.sessions[i].target].ring, loads);
      s.(worker := if loads < 4 then Snapshotting(i, final, loads + 1, after) else Releasing(i, final, after))
    case Releasing(i, final, seen) =>
      SetSession(s, i, s.sessions[i].(terminal := seen, owns := false, state := final)).(
        reserved := false, owner := None, worker := Ready)
    case Draining(i, consumer) =>
      var t := s.sessions[i].target;
      var drain := Consume(s.targets[t].ring, s.targets[t].log, consumer);
      SetTarget(s, t, s.targets[t].(ring := drain.ring, log := drain.log)).(
        worker := if drain.consumer == Resting then Ready else Worker.Draining(i, drain.consumer))
  }

  // ---- Runs ----

  function Do(s: System, a: Action): System
    requires Shaped(s)
    requires a.Begin? ==> a.command.i < |s.sessions|
  {
    match a
    case HostCalls(id) => if s.published == None then s else s.(thunk := Loaded(s.published.value, id))
    case ThunkRuns => RunThunk(s)
    case Begin(command) => Start(s, command)
    case WorkerRuns => RunWorker(s)
  }

  /** What the two threads can do at all. */
  predicate Possible(s: System, a: Action) {
    match a
    case HostCalls(_) => s.thunk == Away
    case ThunkRuns => s.thunk != Away
    case Begin(command) => s.worker == Ready && command.i < |s.sessions|
    case WorkerRuns => s.worker != Ready
  }

  /** The thunk has a pointer to the target. */
  predicate Holds(thunk: Thunk, t: nat) {
    !thunk.Away? && thunk.target == t
  }

  /** The hypothesis: when an activation is about to reset a target, no thunk still holds it. */
  predicate ResetIsSafe(s: System) {
    s.worker.Reserving? && !s.reserved ==> !Holds(s.thunk, s.nextTarget)
  }

  predicate Enabled(s: System, a: Action) {
    Possible(s, a) && (a == WorkerRuns ==> ResetIsSafe(s))
  }

  /** `n` sessions, all idle, before anything has happened. */
  function Initial(n: nat, filler: Record): System {
    var ring := Ring(seq(CAPACITY, _ => filler), 0, 0, 0, 0, 0, 0, 0);
    System(seq(TARGETS, _ => Target(ring, EMPTY_LOG, 0)), None, false, 0,
           seq(n, _ => Session(Idle, 0, false, false, NOTHING)), Away, Ready, None, 0, 0)
  }

  // ---- The invariant ----

  predicate Indexed(s: System) {
    && |s.targets| == TARGETS && s.nextTarget < TARGETS
    && (s.published.Some? ==> s.published.value < TARGETS)
    && (forall t | 0 <= t < TARGETS :: |s.targets[t].ring.slots| == CAPACITY)
    && (forall i | 0 <= i < |s.sessions| :: s.sessions[i].target < TARGETS)
    && (!s.thunk.Away? ==> s.thunk.target < TARGETS)
    && (!s.worker.Ready? ==> s.worker.i < |s.sessions|)
  }

  predicate Shaped(s: System) {
    Indexed(s) && (s.worker.Resetting? ==> s.worker.stores < RESET_STORES)
    && (s.worker.Snapshotting? ==> s.worker.loads < 5)
  }

  predicate BeforeActive(state: SessionState) {
    state == Idle || state == WaitingForRenderInfo || state == WaitingForProcessSlot
  }

  /** The worker is activating session `j` but has not published it. */
  predicate Acquiring(worker: Worker, j: nat) {
    (worker.Resetting? || worker.Publishing?) && worker.i == j
  }

  predicate Ending(worker: Worker) {
    worker.Unregistering? || worker.Unpublishing? || worker.Waiting? || worker.Snapshotting? || worker.Releasing?
  }

  predicate PastUnpublish(worker: Worker) {
    worker.Waiting? || worker.Snapshotting? || worker.Releasing?
  }

  predicate PastWait(worker: Worker) {
    worker.Snapshotting? || worker.Releasing?
  }

  /** At most one session owns the slot; the published target is that owner's; and every registration but
      the owner's current one has been undone. */
  predicate Exclusive(s: System)
    requires Shaped(s)
  {
    && (s.reserved <==> s.owner.Some?)
    && (s.owner.Some? ==> s.owner.value < |s.sessions| && (s.sessions[s.owner.value].owns || Acquiring(s.worker, s.owner.value)))
    && (forall j | 0 <= j < |s.sessions| :: s.sessions[j].owns ==> s.owner == Some(j))
    && (s.published.Some? ==>
          && s.owner.Some? && s.sessions[s.owner.value].owns && s.sessions[s.owner.value].target == s.published.value
          && !PastUnpublish(s.worker))
    && s.registrations == s.unregistrations
       + if s.owner.Some? && s.sessions[s.owner.value].registered then 1 else 0
  }

  /** Session states agree with ownership and with what the worker is doing. */
  predicate SessionsOk(s: System)
    requires Shaped(s)
  {
    && (forall j | 0 <= j < |s.sessions| :: SessionOk(s.sessions[j], j, s.worker))
    && (s.worker.Reserving? || s.worker.Resetting? || s.worker.Publishing? ==>
          !s.sessions[s.worker.i].owns && BeforeActive(s.sessions[s.worker.i].state))
    && (s.worker.Resetting? || s.worker.Publishing? ==> s.owner == Some(s.worker.i) && s.published == None)
    && (s.worker.Registering? ==> s.sessions[s.worker.i].owns && s.published == Some(s.sessions[s.worker.i].target))
    && (Ending(s.worker) || s.worker.Draining? ==> s.sessions[s.worker.i].owns && s.sessions[s.worker.i].state == Active)
    && (Ending(s.worker) && !s.worker.Unregistering? ==> !s.sessions[s.worker.i].registered)
    && (Ending(s.worker) ==> s.worker.final == Stopped || s.worker.final == Failed)
  }

  predicate SessionOk(session: Session, j: nat, worker: Worker) {
    && (session.registered ==> session.owns)
    && (session.state == Active ==> session.owns)
    && (session.owns ==> session.state == Active || (worker.Registering? && worker.i == j && BeforeActive(session.state)))
    && (session.owns && session.state == Active && !(Ending(worker) && worker.i == j) ==> session.registered)
    && (session.owns && worker.Registering? ==> !session.registered)
    && session.terminal.received == (session.terminal.enqueued + session.terminal.unknown + session.terminal.overflow) % WORD_LIMIT
  }

  function ProducerAt(s: System, t: nat): Producer {
    if s.thunk.Inside? && s.thunk.target == t then s.thunk.producer else Outside
  }

  function ConsumerAt(s: System, t: nat): Consumer
    requires Shaped(s)
  {
    if s.worker.Draining? && s.sessions[s.worker.i].target == t then s.worker.consumer else Resting
  }

  predicate BeingReset(s: System, t: nat)
    requires Shaped(s)
  {
    s.worker.Resetting? && s.sessions[s.worker.i].target == t
  }

  /** Every target not in the middle of a reset has a sound ring; one in the middle is reset so far. */
  predicate RingsOk(s: System)
    requires Shaped(s)
  {
    forall t | 0 <= t < TARGETS ::
      if BeingReset(s, t) then ResetSoFar(s.targets[t].ring, s.worker.stores)
      else Sound(s.targets[t].ring, s.targets[t].log, ProducerAt(s, t), ConsumerAt(s, t))
  }

  predicate ResetSoFar(ring: Ring, stores: nat) {
    && |ring.slots| == CAPACITY
    && (stores > 0 ==> ring.read == 0) && (stores > 1 ==> ring.write == 0) && (stores > 2 ==> ring.received == 0)
    && (stores > 3 ==> ring.enqueued == 0) && (stores > 4 ==> ring.drained == 0) && (stores > 5 ==> ring.unknown == 0)
    && (stores > 6 ==> ring.overflow == 0)
  }

  /** The thunk has been counted into the target and not yet out of it. */
  predicate CountedIn(thunk: Thunk, t: nat) {
    Holds(thunk, t) && !thunk.Loaded?
  }

  /** Each in-flight count is exactly the number of thunks counted in. */
  predicate InFlightExact(s: System) {
    forall t | 0 <= t < |s.targets| :: s.targets[t].inFlight == if CountedIn(s.thunk, t) then 1 else 0
  }

  /** Callbacks may be recorded in the target: its owner has it and has not finished waiting. */
  predicate Live(s: System, t: nat)
    requires Shaped(s)
  {
    && s.owner.Some? && s.owner.value < |s.sessions|
    && s.sessions[s.owner.value].owns && s.sessions[s.owner.value].target == t
    && !PastWait(s.worker)
  }

  /** An admitted thunk is inside a live target, and nothing holds a target that is being acquired. */
  predicate ThunkOk(s: System)
    requires Shaped(s)
  {
    && (s.thunk.Inside? ==> Live(s, s.thunk.target) && s.thunk.producer != Outside)
    && (s.worker.Resetting? || s.worker.Publishing? ==> !Holds(s.thunk, s.sessions[s.worker.i].target))
  }

  /** The loads of a snapshot so far are what the ring, at rest, still shows. */
  predicate SnapshotOk(s: System)
    requires Shaped(s)
  {
    if s.worker.Snapshotting? then Matches(s.worker.seen, s.targets[s.sessions[s.worker.i].target].ring, s.worker.loads)
    else if s.worker.Releasing? then Matches(s.worker.seen, s.targets[s.sessions[s.worker.i].target].ring, 5)
    else true
  }

  predicate Matches(seen: Diagnostics, ring: Ring, loads: nat) {
    && (loads > 0 ==> seen.received == ring.received) && (loads > 1 ==> seen.enqueued == ring.enqueued)
    && (loads > 2 ==> seen.drained == ring.drained) && (loads > 3 ==> seen.unknown == ring.unknown)
    && (loads > 4 ==> seen.overflow == ring.overflow)
  }

  predicate Inv(s: System) {
    Shaped(s) && Exclusive(s) && SessionsOk(s) && RingsOk(s) && InFlightExact(s) && ThunkOk(s) && SnapshotOk(s)
  }

  lemma InitialInv(n: nat, filler: Record)
    ensures Inv(Initial(n, filler))
  {
  }

  // ---- Preservation: the host thread ----

  lemma CallPreserves(s: System, id: int)
    requires Inv(s) && s.thunk == Away
    ensures Inv(Do(s, HostCalls(id)))
  {
    hide Sound;
    var after := Do(s, HostCalls(id));
    assert forall t :: ProducerAt(after, t) == ProducerAt(s, t);
  }

  /** Admission and departure do not disturb a sound ring. */
  lemma BetweenCalls(ring: Ring, log: Log, id: int, consumer: Consumer)
    ensures Sound(ring, log, Outside, consumer) ==> Sound(ring, log, Arrived(id), consumer)
    ensures Sound(ring, log, Finished, consumer) ==> Sound(ring, log, Outside, consumer)
  {
  }

  lemma EnterPreserves(s: System)
    requires Inv(s) && s.thunk.Loaded?
    ensures Inv(RunThunk(s))
  {
    hide Sound;
  }

  lemma RecheckPreserves(s: System)
    requires Inv(s) && s.thunk.Entered?
    ensures Inv(RunThunk(s))
  {
    hide Sound;
    var t := s.thunk.target;
    BetweenCalls(s.targets[t].ring, s.targets[t].log, s.thunk.id, ConsumerAt(s, t));
  }

  lemma ProduceStepPreserves(s: System)
    requires Inv(s) && s.thunk.Inside? && !s.thunk.producer.Finished?
    ensures Inv(RunThunk(s))
  {
    hide Sound;
    var t := s.thunk.target;
    ProducePreserves(s.targets[t].ring, s.targets[t].log, s.thunk.producer, ConsumerAt(s, t));
  }

  lemma DepartPreserves(s: System)
    requires Inv(s) && (s.thunk.Leaving? || (s.thunk.Inside? && s.thunk.producer.Finished?))
    ensures Inv(RunThunk(s))
  {
    hide Sound;
    var t := s.thunk.target;
    BetweenCalls(s.targets[t].ring, s.targets[t].log, 0, ConsumerAt(s, t));
  }

  lemma ThunkPreserves(s: System)
    requires Inv(s) && s.thunk != Away
    ensures Inv(RunThunk(s))
  {
    hide Inv, RunThunk;
    match s.thunk
    case Loaded(_, _) => EnterPreserves(s);
    case Entered(_, _) => RecheckPreserves(s);
    case Inside(_, producer) => if producer.Finished? { DepartPreserves(s); } else { ProduceStepPreserves(s); }
    case Leaving(_) => DepartPreserves(s);
  }

  // ---- Preservation: the integration thread ----

  lemma DrainBegins(ring: Ring, log: Log, producer: Producer, room: nat)
    ensures Sound(ring, log, producer, Resting) ==> Sound(ring, log, producer, Consumer.Draining(room))
  {
  }

  lemma DrainStartPreserves(s: System, command: Command)
    requires Inv(s) && s.worker == Ready && command.i < |s.sessions| && command.Drain?
    ensures Inv(Start(s, command))
  {
    hide Sound;
    var t := s.sessions[command.i].target;
    DrainBegins(s.targets[t].ring, s.targets[t].log, ProducerAt(s, t), command.room);
  }

  /** A session that owns nothing may change state freely, except to become active. */
  lemma StatePreserves(s: System, i: nat, state: SessionState)
    requires Inv(s) && s.worker == Ready && i < |s.sessions| && !s.sessions[i].owns && state != Active
    ensures Inv(SetSession(s, i, s.sessions[i].(state := state)))
  {
    hide Sound;
  }

  lemma TerminatePreserves(s: System, i: nat, final: SessionState)
    requires Inv(s) && s.worker == Ready && i < |s.sessions| && (final == Stopped || final == Failed)
    ensures Inv(Terminate(s, i, final))
  {
    hide Sound;
    if !s.sessions[i].owns {
      StatePreserves(s, i, final);
    }
  }

  lemma ReservingPreserves(s: System, i: nat)
    requires Inv(s) && s.worker == Ready && i < |s.sessions| && BeforeActive(s.sessions[i].state)
    ensures Inv(s.(worker := Reserving(i)))
  {
    hide Sound;
  }

  lemma StartPreserves(s: System, command: Command)
    requires Inv(s) && s.worker == Ready && command.i < |s.sessions|
    ensures Inv(Start(s, command))
  {
    var session := s.sessions[command.i];
    assert session.owns ==> session.state == Active;
    hide Inv;
    match command
    case Bootstrap(i, _, _) =>
      if session.state == Idle {
        ReservingPreserves(s, i);
        StatePreserves(s, i, Failed);
        StatePreserves(s, i, WaitingForRenderInfo);
      }
    case Retry(i, _) =>
      if session.state == WaitingForRenderInfo || session.state == WaitingForProcessSlot {
        ReservingPreserves(s, i);
        StatePreserves(s, i, WaitingForRenderInfo);
      }
    case Stop(i) => TerminatePreserves(s, i, Stopped);
    case Fail(i) => TerminatePreserves(s, i, Failed);
    case Drain(_, _) => DrainStartPreserves(s, command);
  }

  lemma ReservePreserves(s: System)
    requires Inv(s) && s.worker.Reserving? && ResetIsSafe(s)
    ensures Inv(RunWorker(s))
  {
    hide Sound;
  }

  lemma ResetIsSound(ring: Ring)
    requires ResetSoFar(ring, 7)
    ensures Sound(ring, EMPTY_LOG, Outside, Resting)
  {
  }

  lemma ResetPreserves(s: System)
    requires Inv(s) && s.worker.Resetting?
    ensures Inv(RunWorker(s))
  {
    hide Sound;
    var t := s.sessions[s.worker.i].target;
    if s.worker.stores == 7 {
      ResetIsSound(s.targets[t].ring);
    }
  }

  lemma PublishStepPreserves(s: System)
    requires Inv(s) && s.worker.Publishing?
    ensures Inv(RunWorker(s))
  {
    hide Sound;
  }

  lemma RegisterPreserves(s: System)
    requires Inv(s) && s.worker.Registering?
    ensures Inv(RunWorker(s))
  {
    hide Sound;
  }

  lemma UnregisterPreserves(s: System)
    requires Inv(s) && s.worker.Unregistering?
    ensures Inv(RunWorker(s))
  {
    hide Sound;
  }

  lemma UnpublishPreserves(s: System)
    requires Inv(s) && s.worker.Unpublishing?
    ensures Inv(RunWorker(s))
  {
    hide Sound;
  }

  lemma WaitPreserves(s: System)
    requires Inv(s) && s.worker.Waiting?
    ensures Inv(RunWorker(s))
  {
    hide Sound;
  }

  lemma SnapshotPreserves(s: System)
    requires Inv(s) && s.worker.Snapshotting?
    ensures Inv(RunWorker(s))
  {
    hide Sound;
  }

  lemma ReleasePreserves(s: System)
    requires Inv(s) && s.worker.Releasing?
    ensures Inv(RunWorker(s))
  {
    hide Sound;
    var target := s.targets[s.sessions[s.worker.i].target];
    CountersBalance(target.ring, target.log, Outside, Resting);
  }

  lemma DrainPreserves(s: System)
    requires Inv(s) && s.worker.Draining?
    ensures Inv(RunWorker(s))
  {
    hide Sound;
    var t := s.sessions[s.worker.i].target;
    ConsumePreserves(s.targets[t].ring, s.targets[t].log, ProducerAt(s, t), s.worker.consumer);
  }

  lemma WorkerPreserves(s: System)
    requires Inv(s) && s.worker != Ready && ResetIsSafe(s)
    ensures Inv(RunWorker(s))
  {
    hide Inv, RunWorker;
    match s.worker
    case Reserving(_) => ReservePreserves(s);
    case Resetting(_, _) => ResetPreserves(s);
    case Publishing(_) => PublishStepPreserves(s);
    case Registering(_) => RegisterPreserves(s);
    case Unregistering(_, _) => UnregisterPreserves(s);
    case Unpublishing(_, _) => UnpublishPreserves(s);
    case Waiting(_, _) => WaitPreserves(s);
    case Snapshotting(_, _, _, _) => SnapshotPreserves(s);
    case Releasing(_, _, _) => ReleasePreserves(s);
    case Draining(_, _) => DrainPreserves(s);
  }
}
