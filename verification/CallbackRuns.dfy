/** What holds over every interleaving of the host thread and the integration thread. */
module CallbackRuns {
  import opened Words
  import opened CallbackRing
  import opened CallbackSession

  lemma StepPreserves(s: System, a: Action)
    requires Inv(s) && Enabled(s, a)
    ensures Inv(Do(s, a))
  {
    hide Inv, RunThunk, RunWorker, Start;
    match a
    case HostCalls(id) => CallPreserves(s, id);
    case ThunkRuns => ThunkPreserves(s);
    case Begin(command) => StartPreserves(s, command);
    case WorkerRuns => WorkerPreserves(s);
  }

  lemma InvIsShaped(s: System)
    ensures Inv(s) ==> Shaped(s)
  {
  }

  /** A run: each action was enabled in the state it was taken in. */
  predicate IsRun(s: System, run: seq<Action>)
    decreases |run|
  {
    run == [] || (Shaped(s) && Enabled(s, run[0]) && IsRun(Do(s, run[0]), run[1..]))
  }

  function After(s: System, run: seq<Action>): System
    requires IsRun(s, run)
    decreases |run|
  {
    if run == [] then s else After(Do(s, run[0]), run[1..])
  }

  /** Every reachable state satisfies the invariant. */
  lemma {:induction false} EveryRunIsSound(s: System, run: seq<Action>)
    requires Inv(s) && IsRun(s, run)
    ensures Inv(After(s, run))
    decreases |run|
  {
    hide Inv, Do;
    if run != [] {
      StepPreserves(s, run[0]);
      EveryRunIsSound(Do(s, run[0]), run[1..]);
    }
  }

  // ---- Exclusivity ----

  /** However many sessions there are and however their operations interleave, at most one owns the slot;
      the published target is that owner's; a free slot means every registration has been undone, and an
      owned one leaves at most the owner's. */
  lemma OneOwner(n: nat, filler: Record, run: seq<Action>, i: nat, j: nat)
    requires IsRun(Initial(n, filler), run)
    requires i < |After(Initial(n, filler), run).sessions| && j < |After(Initial(n, filler), run).sessions|
    ensures var s := After(Initial(n, filler), run);
            && (s.sessions[i].owns && s.sessions[j].owns ==> i == j)
            && (s.sessions[i].owns ==> s.reserved)
            && (s.published.Some? && s.sessions[i].owns ==> s.published == Some(s.sessions[i].target))
            && (!s.reserved ==> s.published == None && s.registrations == s.unregistrations)
            && s.unregistrations <= s.registrations <= s.unregistrations + 1
            && (s.sessions[i].registered ==> s.registrations == s.unregistrations + 1)
  {
    InitialInv(n, filler);
    EveryRunIsSound(Initial(n, filler), run);
    hide Sound, IsRun, After;
  }

  predicate Ended(state: SessionState) {
    state == Stopped || state == Failed
  }

  lemma EndedWorker(s: System, i: nat)
    requires Inv(s) && i < |s.sessions| && Ended(s.sessions[i].state)
    ensures i < |RunWorker(s).sessions| && RunWorker(s).sessions[i].state == s.sessions[i].state
  {
    hide Sound, Consume, Exclusive, RingsOk, ThunkOk, SnapshotOk, InFlightExact;
  }

  lemma EndedStart(s: System, command: Command, i: nat)
    requires command.i < |s.sessions| && i < |s.sessions| && Ended(s.sessions[i].state)
    ensures i < |Start(s, command).sessions| && Ended(Start(s, command).sessions[i].state)
    ensures s.sessions[i].state == Stopped ==> Start(s, command).sessions[i].state == Stopped
  {
  }

  lemma EndedStep(s: System, a: Action, i: nat)
    requires Inv(s) && Enabled(s, a) && i < |s.sessions| && Ended(s.sessions[i].state)
    ensures i < |Do(s, a).sessions| && Ended(Do(s, a).sessions[i].state)
    ensures s.sessions[i].state == Stopped ==> Do(s, a).sessions[i].state == Stopped
  {
    match a
    case HostCalls(_) =>
    case ThunkRuns =>
    case Begin(command) => EndedStart(s, command, i);
    case WorkerRuns => EndedWorker(s, i);
    InvIsShaped(s);
    hide Inv, Produce, RunWorker, Start;
  }

  /** A stopped session stays stopped, and a failed one can only be stopped. */
  lemma {:induction false} EndedStaysEnded(s: System, run: seq<Action>, i: nat)
    requires Inv(s) && IsRun(s, run) && i < |s.sessions| && Ended(s.sessions[i].state)
    ensures i < |After(s, run).sessions| && Ended(After(s, run).sessions[i].state)
    ensures s.sessions[i].state == Stopped ==> After(s, run).sessions[i].state == Stopped
    decreases |run|
  {
    hide Inv, Do;
    if run != [] {
      StepPreserves(s, run[0]);
      EndedStep(s, run[0], i);
      EndedStaysEnded(Do(s, run[0]), run[1..], i);
    }
  }

  // ---- Teardown ----

  /** No session is using the target, and none is acquiring it. */
  predicate Quiet(s: System, t: nat) {
    Shaped(s) && !Live(s, t) && !((s.worker.Resetting? || s.worker.Publishing?) && s.sessions[s.worker.i].target == t)
  }

  /** The action is an activation taking the target, which is the only way to its next reset. */
  predicate Claims(s: System, a: Action, t: nat) {
    a == WorkerRuns && s.worker.Reserving? && !s.reserved && s.nextTarget == t
  }

  predicate NeverClaims(s: System, run: seq<Action>, t: nat)
    requires IsRun(s, run)
    decreases |run|
  {
    run == [] || (!Claims(s, run[0], t) && NeverClaims(Do(s, run[0]), run[1..], t))
  }

  /** The same ring and counters, and still quiet. */
  predicate Frozen(s: System, after: System, t: nat) {
    && Quiet(after, t) && t < |s.targets| && t < |after.targets|
    && after.targets[t].ring == s.targets[t].ring && after.targets[t].log == s.targets[t].log
  }

  lemma QuietThunk(s: System, t: nat)
    requires Inv(s) && s.thunk != Away && t < TARGETS && Quiet(s, t)
    ensures Frozen(s, RunThunk(s), t)
  {
    ThunkPreserves(s);
    hide Sound, Produce, Consume, RingsOk, SnapshotOk, InFlightExact;
  }

  /** Starting an operation changes no target, no ownership and no session's target. */
  lemma StartFrame(s: System, command: Command, j: nat)
    requires command.i < |s.sessions| && j < |s.sessions| && s.worker == Ready
    ensures var after := Start(s, command);
            && after.targets == s.targets && after.owner == s.owner && |after.sessions| == |s.sessions|
            && after.sessions[j].owns == s.sessions[j].owns && after.sessions[j].target == s.sessions[j].target
            && !after.worker.Resetting? && !after.worker.Publishing? && !PastWait(after.worker)
  {
  }

  lemma QuietStart(s: System, command: Command, t: nat)
    requires Inv(s) && s.worker == Ready && command.i < |s.sessions| && t < |s.targets| && Quiet(s, t)
    ensures Frozen(s, Start(s, command), t)
  {
    StartPreserves(s, command);
    InvIsShaped(s);
    InvIsShaped(Start(s, command));
    StartFrame(s, command, command.i);
    if s.owner.Some? && s.owner.value < |s.sessions| {
      StartFrame(s, command, s.owner.value);
    }
    hide Inv, Shaped, Start;
  }

  lemma QuietWorker(s: System, t: nat)
    requires Inv(s) && s.worker != Ready && t < TARGETS && Quiet(s, t) && !Claims(s, WorkerRuns, t)
    requires Shaped(RunWorker(s))
    ensures Frozen(s, RunWorker(s), t)
  {
    hide Sound, Produce, Consume, RingsOk, SnapshotOk, InFlightExact;
  }

  lemma QuietStep(s: System, a: Action, t: nat)
    requires Inv(s) && Enabled(s, a) && t < TARGETS && Quiet(s, t) && !Claims(s, a, t)
    ensures Frozen(s, Do(s, a), t)
  {
    StepPreserves(s, a);
    InvIsShaped(Do(s, a));
    hide Inv, RunThunk, RunWorker, Start, Shaped;
    match a
    case HostCalls(_) =>
    case ThunkRuns => QuietThunk(s, t);
    case Begin(command) => QuietStart(s, command, t);
    case WorkerRuns => QuietWorker(s, t);
  }

  /** Nothing either thread does changes a quiet target's ring or counters, other than the number of
      callbacks in flight, until an activation claims it. */
  lemma {:induction false} QuietStaysFrozen(s: System, run: seq<Action>, t: nat)
    requires Inv(s) && IsRun(s, run) && t < TARGETS && Quiet(s, t) && NeverClaims(s, run, t)
    ensures Quiet(After(s, run), t) && t < |After(s, run).targets|
    ensures After(s, run).targets[t].ring == s.targets[t].ring
    ensures After(s, run).targets[t].log == s.targets[t].log
    decreases |run|
  {
    InvIsShaped(s);
    hide Inv, Do, Quiet, Claims;
    if run != [] {
      StepPreserves(s, run[0]);
      QuietStep(s, run[0], t);
      QuietStaysFrozen(Do(s, run[0]), run[1..], t);
    }
  }

  function Counters(ring: Ring): Diagnostics {
    Diagnostics(ring.received, ring.enqueued, ring.drained, ring.unknown, ring.overflow)
  }

  /** From the moment `terminate` stops waiting, whatever runs next, the target it tore down is frozen until
      it is claimed again, and no callback is ever again recorded in it before that. */
  lemma TeardownFreezes(s: System, run: seq<Action>)
    requires Inv(s) && s.worker.Waiting? && s.targets[s.sessions[s.worker.i].target].inFlight == 0
    requires IsRun(RunWorker(s), run) && NeverClaims(RunWorker(s), run, s.sessions[s.worker.i].target)
    ensures var t := s.sessions[s.worker.i].target;
            && t < |After(RunWorker(s), run).targets|
            && After(RunWorker(s), run).targets[t].ring == s.targets[t].ring
            && !(After(RunWorker(s), run).thunk.Inside? && After(RunWorker(s), run).thunk.target == t)
  {
    var t := s.sessions[s.worker.i].target;
    StepPreserves(s, WorkerRuns);
    assert Quiet(RunWorker(s), t);
    QuietStaysFrozen(RunWorker(s), run, t);
    EveryRunIsSound(RunWorker(s), run);
    hide Sound, RingsOk, SnapshotOk, InFlightExact;
  }

  /** The diagnostics a session keeps when it releases the slot are the target's final counters: they still
      equal them in every later state, until the target is claimed again. */
  lemma TerminalIsFinal(s: System, run: seq<Action>)
    requires Inv(s) && s.worker.Releasing?
    requires IsRun(RunWorker(s), run) && NeverClaims(RunWorker(s), run, s.sessions[s.worker.i].target)
    ensures var t := s.sessions[s.worker.i].target;
            && t < |After(RunWorker(s), run).targets|
            && RunWorker(s).sessions[s.worker.i].terminal == Counters(After(RunWorker(s), run).targets[t].ring)
  {
    var t := s.sessions[s.worker.i].target;
    StepPreserves(s, WorkerRuns);
    assert Quiet(RunWorker(s), t);
    QuietStaysFrozen(RunWorker(s), run, t);
  }

  /** In every interleaving, every session's kept diagnostics account for every callback received. */
  lemma TerminalBalances(n: nat, filler: Record, run: seq<Action>, i: nat)
    requires IsRun(Initial(n, filler), run) && i < |After(Initial(n, filler), run).sessions|
    ensures var terminal := After(Initial(n, filler), run).sessions[i].terminal;
            terminal.received == (terminal.enqueued + terminal.unknown + terminal.overflow) % WORD_LIMIT
  {
    InitialInv(n, filler);
    EveryRunIsSound(Initial(n, filler), run);
    hide Sound, IsRun, After;
  }

  /** Drains took a prefix of what was accepted; at most 64 records lie between the positions, each intact in
      its slot; sequence numbers are strictly increasing serial numbers modulo 2^64, and so strictly increase
      themselves until 2^64 calls have been counted. */
  predicate Kept(ring: Ring, log: Log) {
    && |ring.slots| == CAPACITY
    && log.taken <= log.accepted
    && Minus(ring.write, ring.read) == |log.accepted| - |log.taken| <= 64
    && (forall j | |log.taken| <= j < |log.accepted| :: ring.slots[j % CAPACITY] == log.accepted[j])
    && Serialized(log)
    && (log.calls < WORD_LIMIT ==>
          forall i, j | 0 <= i < j < |log.accepted| :: log.accepted[i].sequence < log.accepted[j].sequence)
  }

  /** In every reachable state, no accepted record of a target not being reset is lost, reordered or
      overwritten. */
  lemma RecordsAreKept(n: nat, filler: Record, run: seq<Action>, t: nat)
    requires IsRun(Initial(n, filler), run) && t < TARGETS
    ensures var s := After(Initial(n, filler), run);
            Shaped(s) && (!BeingReset(s, t) ==> Kept(s.targets[t].ring, s.targets[t].log))
  {
    InitialInv(n, filler);
    EveryRunIsSound(Initial(n, filler), run);
    hide Sound, IsRun, After, Kept;
    var s := After(Initial(n, filler), run);
    if !BeingReset(s, t) {
      DrainedIsPrefix(s.targets[t].ring, s.targets[t].log, ProducerAt(s, t), ConsumerAt(s, t));
    }
  }

  // ---- The wait ends ----

  /** How many accesses the thunk has left, at most. */
  function Remaining(thunk: Thunk): nat {
    match thunk
    case Away => 0
    case Loaded(_, _) => 11
    case Entered(_, _) => 10
    case Inside(_, producer) => 1 + (match producer
                                     case Outside => 8
                                     case Arrived(_) => 7
                                     case Numbered(_, _) => 6
                                     case SawWrite(_, _) => 5
                                     case HasRoom(_, _) => 4
                                     case Stored(_, _) => 3
                                     case Announced => 2
                                     case Overflowing => 1
                                     case Finished => 0)
    case Leaving(_) => 1
  }

  lemma ThunkProgresses(s: System)
    requires Inv(s) && s.thunk != Away
    ensures Remaining(RunThunk(s).thunk) < Remaining(s.thunk)
    ensures RunThunk(s).worker == s.worker && RunThunk(s).sessions == s.sessions && RunThunk(s).published == s.published
  {
    hide Sound, RingsOk, SnapshotOk, InFlightExact, Exclusive, SessionsOk;
  }

  /** The host thread running on alone until its callback returns. */
  function FinishCallback(s: System): (after: System)
    requires Inv(s)
    ensures Inv(after) && after.thunk == Away
    ensures after.worker == s.worker && after.sessions == s.sessions && after.published == s.published
    decreases Remaining(s.thunk)
  {
    if s.thunk == Away then s
    else
      ThunkPreserves(s);
      ThunkProgresses(s);
      FinishCallback(RunThunk(s))
  }

  /** `terminate` never waits on anything but a callback in progress: once that has returned, the next look
      at the count ends the wait, and no new callback can enter meanwhile. */
  lemma WaitEnds(s: System, id: int)
    requires Inv(s) && s.worker.Waiting?
    ensures RunWorker(FinishCallback(s)).worker == Snapshotting(s.worker.i, s.worker.final, 0, NOTHING)
    ensures Do(FinishCallback(s), HostCalls(id)) == FinishCallback(s)
  {
    hide Sound, RingsOk, SnapshotOk;
    var after := FinishCallback(s);
    var t := s.sessions[s.worker.i].target;
    assert after.targets[t].inFlight == 0;
  }

  // ---- The hypothesis on resets ----

  /** Whatever the two threads can do at all, the hypothesis set aside. */
  predicate IsFreeRun(s: System, run: seq<Action>)
    decreases |run|
  {
    run == [] || (Shaped(s) && Possible(s, run[0]) && IsFreeRun(Do(s, run[0]), run[1..]))
  }

  function AfterFree(s: System, run: seq<Action>): System
    requires IsFreeRun(s, run)
    decreases |run|
  {
    if run == [] then s else AfterFree(Do(s, run[0]), run[1..])
  }

  /** The integration thread finishes what it is doing and stops sessions, but starts nothing else. */
  predicate OnlyStops(run: seq<Action>) {
    forall i | 0 <= i < |run| && run[i].Begin? :: run[i].command.Stop?
  }

  /** A terminate has stopped waiting, yet a callback is inside the target and its next access changes the
      counters: what teardown promises cannot happen. */
  predicate Intruded(s: System) {
    && Shaped(s) && PastWait(s.worker) && s.thunk.Inside? && s.thunk.target == s.sessions[s.worker.i].target
    && RunThunk(s).targets[s.thunk.target].ring != s.targets[s.thunk.target].ring
  }

  lemma SafetyLasts(s: System, a: Action)
    requires Inv(s) && Possible(s, a) && ResetIsSafe(s) && (a.Begin? ==> a.command.Stop?)
    ensures ResetIsSafe(Do(s, a))
  {
    hide Sound, Produce, Consume, RingsOk, SnapshotOk, InFlightExact;
  }

  lemma {:induction false} SafeRun(s: System, run: seq<Action>)
    requires Inv(s) && ResetIsSafe(s) && IsFreeRun(s, run) && OnlyStops(run)
    ensures Inv(AfterFree(s, run))
    decreases |run|
  {
    if run != [] {
      hide Inv, Do, ResetIsSafe;
      StepPreserves(s, run[0]);
      SafetyLasts(s, run[0]);
      assert OnlyStops(run[1..]) by {
        assert forall i | 0 <= i < |run| - 1 :: run[1..][i] == run[i + 1];
      }
      SafeRun(Do(s, run[0]), run[1..]);
    }
  }

  lemma InvForbidsIntrusion(s: System)
    requires Inv(s)
    ensures !Intruded(s) && InFlightExact(s)
  {
    hide Sound, Produce, RingsOk, SnapshotOk, SessionsOk;
  }

  const LOST: Word32 := 0xffff_ffff

  /** The thunk, turned away but not counted out; outside with its departure counted below zero; or about to be
      let in: and the count says nobody is inside. */
  predicate Miscounted(s: System, t: nat)
    requires t < |s.targets|
  {
    match s.thunk
    case Away => s.targets[t].inFlight == LOST
    case Loaded(target, _) => target == t && s.targets[t].inFlight == LOST
    case Entered(target, _) => target == t && s.targets[t].inFlight == 0
    case Inside(target, producer) => target == t && producer.Arrived? && s.targets[t].inFlight == 0
    case Leaving(target) => target == t && s.targets[t].inFlight == 0
  }

  /** Session `i` is on its way through target `t` with the count lost, or about to be. */
  predicate Doomed(s: System, i: nat, t: nat) {
    && Shaped(s) && i < |s.sessions| && t < TARGETS
    && (!s.worker.Ready? ==> s.worker.i == i)
    && match s.worker
       case Reserving(_) => !s.reserved && s.nextTarget == t && Holds(s.thunk, t) && !s.thunk.Inside?
       case Resetting(_, _) => s.sessions[i].target == t && Holds(s.thunk, t) && !s.thunk.Inside?
       case Publishing(_) => s.sessions[i].target == t && Miscounted(s, t) && !s.thunk.Inside? && !s.thunk.Loaded?
       case Registering(_) =>
         && s.sessions[i].target == t && s.sessions[i].owns && s.published == Some(t)
         && Miscounted(s, t) && !s.thunk.Leaving?
       case Ready =>
         && s.sessions[i].target == t && s.sessions[i].owns && s.sessions[i].state == Active
         && Miscounted(s, t) && s.thunk.Inside?
       case Unregistering(_, _) | Unpublishing(_, _) | Waiting(_, _) | Snapshotting(_, _, _, _) =>
         s.sessions[i].target == t && Miscounted(s, t) && s.thunk.Inside?
       case _ => false
  }

  /** What to do next so that the loss shows. */
  function Worsen(s: System, i: nat): Action {
    match s.worker
    case Resetting(_, stores) => if stores == RESET_STORES - 1 && s.thunk.Loaded? then ThunkRuns else WorkerRuns
    case Publishing(_) => if s.thunk.Leaving? then ThunkRuns else WorkerRuns
    case Registering(_) => if s.thunk.Away? then HostCalls(1) else if s.thunk.Inside? then WorkerRuns else ThunkRuns
    case Ready => Begin(Stop(i))
    case _ => WorkerRuns
  }

  function ThunkWork(thunk: Thunk): nat {
    match thunk
    case Leaving(_) => 4
    case Away => 3
    case Loaded(_, _) => 2
    case Entered(_, _) => 1
    case Inside(_, _) => 0
  }

  function Distance(s: System): nat {
    match s.worker
    case Reserving(_) => 70
    case Resetting(_, stores) =>
      if stores < RESET_STORES then 60 - stores + (if s.thunk.Loaded? then 1 else 0) else 0
    case Publishing(_) => 20 + ThunkWork(s.thunk)
    case Registering(_) => 10 + ThunkWork(s.thunk)
    case Ready => 4
    case Unregistering(_, _) => 3
    case Unpublishing(_, _) => 2
    case Waiting(_, _) => 1
    case _ => 0
  }

  lemma DoomedReserving(s: System, i: nat, t: nat)
    requires Doomed(s, i, t) && (s.worker.Reserving?)
    ensures Possible(s, Worsen(s, i)) && Doomed(Do(s, Worsen(s, i)), i, t)
    ensures Distance(Do(s, Worsen(s, i))) < Distance(s)
    ensures Worsen(s, i).Begin? ==> Worsen(s, i).command.Stop?
  {
    hide Produce, Consume;
  }

  lemma DoomedResetting(s: System, i: nat, t: nat)
    requires Doomed(s, i, t) && (s.worker.Resetting?)
    ensures Possible(s, Worsen(s, i)) && Doomed(Do(s, Worsen(s, i)), i, t)
    ensures Distance(Do(s, Worsen(s, i))) < Distance(s)
    ensures Worsen(s, i).Begin? ==> Worsen(s, i).command.Stop?
  {
    hide Produce, Consume;
  }

  lemma DoomedPublishing(s: System, i: nat, t: nat)
    requires Doomed(s, i, t) && (s.worker.Publishing?)
    ensures Possible(s, Worsen(s, i)) && Doomed(Do(s, Worsen(s, i)), i, t)
    ensures Distance(Do(s, Worsen(s, i))) < Distance(s)
    ensures Worsen(s, i).Begin? ==> Worsen(s, i).command.Stop?
  {
    hide Produce, Consume;
  }

  lemma DoomedRegistering(s: System, i: nat, t: nat)
    requires Doomed(s, i, t) && (s.worker.Registering?)
    ensures Possible(s, Worsen(s, i)) && Doomed(Do(s, Worsen(s, i)), i, t)
    ensures Distance(Do(s, Worsen(s, i))) < Distance(s)
    ensures Worsen(s, i).Begin? ==> Worsen(s, i).command.Stop?
  {
    hide Produce, Consume;
  }

  lemma DoomedEnding(s: System, i: nat, t: nat)
    requires Doomed(s, i, t) && (s.worker.Ready? || s.worker.Unregistering? || s.worker.Unpublishing? || s.worker.Waiting?)
    ensures Possible(s, Worsen(s, i)) && Doomed(Do(s, Worsen(s, i)), i, t)
    ensures Distance(Do(s, Worsen(s, i))) < Distance(s)
    ensures Worsen(s, i).Begin? ==> Worsen(s, i).command.Stop?
  {
    hide Produce, Consume;
  }

  lemma DoomedStep(s: System, i: nat, t: nat)
    requires Doomed(s, i, t) && !s.worker.Snapshotting?
    ensures Possible(s, Worsen(s, i)) && Doomed(Do(s, Worsen(s, i)), i, t)
    ensures Distance(Do(s, Worsen(s, i))) < Distance(s)
    ensures Worsen(s, i).Begin? ==> Worsen(s, i).command.Stop?
  {
    assert !s.worker.Releasing? && !s.worker.Draining?;
    hide Doomed, Worsen, Do, Distance, Possible;
    match s.worker
    case Reserving(_) => DoomedReserving(s, i, t);
    case Resetting(_, _) => DoomedResetting(s, i, t);
    case Publishing(_) => DoomedPublishing(s, i, t);
    case Registering(_) => DoomedRegistering(s, i, t);
    case _ => DoomedEnding(s, i, t);
  }

  lemma {:induction false} DoomedIsIntruded(s: System, i: nat, t: nat) returns (run: seq<Action>)
    requires Doomed(s, i, t)
    ensures IsFreeRun(s, run) && OnlyStops(run)
    ensures Intruded(AfterFree(s, run)) && !InFlightExact(AfterFree(s, run))
    decreases Distance(s)
  {
    if s.worker.Snapshotting? {
      run := [];
    } else {
      DoomedStep(s, i, t);
      hide Doomed, Do, Possible, Intruded, InFlightExact;
      var rest := DoomedIsIntruded(Do(s, Worsen(s, i)), i, t);
      run := [Worsen(s, i)] + rest;
      assert run[1..] == rest;
    }
  }

  /** The hypothesis is exactly what teardown and the in-flight counts need. Let an activation be about to
      reserve the free slot and, from there on, whatever can happen happen, short of starting anything but
      stops: with the hypothesis no callback is ever inside a target whose teardown has stopped waiting, and
      without it some interleaving puts one there; likewise for the counts. */
  lemma HypothesisIsExact(s: System)
    requires Inv(s) && s.worker.Reserving? && !s.reserved
    ensures ResetIsSafe(s) <==> forall run | IsFreeRun(s, run) && OnlyStops(run) :: !Intruded(AfterFree(s, run))
    ensures ResetIsSafe(s) <==> forall run | IsFreeRun(s, run) && OnlyStops(run) :: InFlightExact(AfterFree(s, run))
  {
    if ResetIsSafe(s) {
      forall run | IsFreeRun(s, run) && OnlyStops(run)
        ensures !Intruded(AfterFree(s, run)) && InFlightExact(AfterFree(s, run))
      {
        SafeRun(s, run);
        InvForbidsIntrusion(AfterFree(s, run));
      }
    } else {
      UnsafeIsDoomed(s);
      var run := DoomedIsIntruded(s, s.worker.i, s.nextTarget);
    }
  }

  lemma UnsafeIsDoomed(s: System)
    requires Inv(s) && s.worker.Reserving? && !s.reserved && !ResetIsSafe(s)
    ensures Doomed(s, s.worker.i, s.nextTarget)
  {
    hide Sound, RingsOk, SnapshotOk, InFlightExact;
  }

  // ---- The hypothesis can fail ----

  lemma {:induction false} RunAppend(s: System, run: seq<Action>, more: seq<Action>)
    requires IsRun(s, run) && IsRun(After(s, run), more)
    ensures IsRun(s, run + more) && After(s, run + more) == After(After(s, run), more)
    decreases |run|
  {
    if run == [] {
      assert run + more == more;
    } else {
      hide Do, Enabled, Shaped;
      RunAppend(Do(s, run[0]), run[1..], more);
      assert (run + more)[1..] == run[1..] + more;
    }
  }

  lemma OneStep(s: System, a: Action)
    requires Shaped(s) && Enabled(s, a)
    ensures IsRun(s, [a]) && After(s, [a]) == Do(s, a)
  {
    assert [a][1..] == [];
  }

  /** Nothing but session `i` is touched. */
  predicate OthersKept(s: System, t: System, i: nat) {
    && |t.sessions| == |s.sessions| && t.thunk == s.thunk
    && forall j | 0 <= j < |s.sessions| && j != i :: t.sessions[j] == s.sessions[j]
  }

  /** An activation that has the slot runs to its end. */
  lemma {:induction false} ActivationEnds(s: System, i: nat) returns (run: seq<Action>)
    requires Inv(s) && (s.worker.Resetting? || s.worker.Publishing? || s.worker.Registering?) && s.worker.i == i
    ensures IsRun(s, run) && Inv(After(s, run)) && OthersKept(s, After(s, run), i)
    ensures var t := After(s, run);
            && t.worker == Ready && t.nextTarget == s.nextTarget && i < |t.sessions|
            && t.sessions[i].state == Active && t.sessions[i].owns && t.published == Some(t.sessions[i].target)
            && i < |s.sessions| && t.sessions[i].target == s.sessions[i].target
    decreases if s.worker.Resetting? then 20 - s.worker.stores else if s.worker.Publishing? then 2 else 1
  {
    hide Sound, RingsOk, SnapshotOk, InFlightExact, ThunkOk, Exclusive, Produce, Consume;
    StepPreserves(s, WorkerRuns);
    var next := Do(s, WorkerRuns);
    OneStep(s, WorkerRuns);
    if s.worker.Registering? {
      run := [WorkerRuns];
    } else {
      var rest := ActivationEnds(next, i);
      RunAppend(s, [WorkerRuns], rest);
      run := [WorkerRuns] + rest;
      hide IsRun, After;
    }
  }

  /** A termination of a target nobody is counted into runs to its end. */
  lemma {:induction false} TerminationEnds(s: System, i: nat) returns (run: seq<Action>)
    requires Inv(s) && Ending(s.worker) && s.worker.i == i
    requires !CountedIn(s.thunk, s.sessions[i].target)
    ensures IsRun(s, run) && Inv(After(s, run)) && OthersKept(s, After(s, run), i)
    ensures var t := After(s, run); t.worker == Ready && t.nextTarget == s.nextTarget && !t.reserved
    decreases match s.worker
              case Unregistering(_, _) => 20
              case Unpublishing(_, _) => 19
              case Waiting(_, _) => 18
              case Snapshotting(_, _, loads, _) => 10 - loads
              case _ => 0
  {
    hide Sound, RingsOk, SnapshotOk, ThunkOk, Exclusive, Produce, Consume;
    StepPreserves(s, WorkerRuns);
    var next := Do(s, WorkerRuns);
    OneStep(s, WorkerRuns);
    if s.worker.Releasing? {
      run := [WorkerRuns];
    } else {
      assert s.targets[s.sessions[i].target].inFlight == 0;
      var rest := TerminationEnds(next, i);
      RunAppend(s, [WorkerRuns], rest);
      run := [WorkerRuns] + rest;
      hide IsRun, After;
    }
  }

  /** A fresh session is brought up. */
  lemma Launch(s: System, i: nat) returns (run: seq<Action>)
    requires Inv(s) && s.worker == Ready && !s.reserved && i < |s.sessions| && s.sessions[i].state == Idle
    requires !Holds(s.thunk, s.nextTarget)
    ensures IsRun(s, run) && Inv(After(s, run)) && OthersKept(s, After(s, run), i)
    ensures var t := After(s, run);
            && t.worker == Ready && t.nextTarget == (s.nextTarget + 1) % TARGETS && i < |t.sessions|
            && t.sessions[i].state == Active && t.sessions[i].owns
            && t.sessions[i].target == s.nextTarget && t.published == Some(s.nextTarget)
  {
    hide Sound, RingsOk, SnapshotOk, InFlightExact, ThunkOk, Produce, Consume;
    var begin := Begin(Bootstrap(i, true, HostAccepted));
    var reserving := Do(s, begin);
    StepPreserves(s, begin);
    OneStep(s, begin);
    var resetting := Do(reserving, WorkerRuns);
    StepPreserves(reserving, WorkerRuns);
    OneStep(reserving, WorkerRuns);
    RunAppend(s, [begin], [WorkerRuns]);
    var rest := ActivationEnds(resetting, i);
    RunAppend(s, [begin] + [WorkerRuns], rest);
    run := [begin] + [WorkerRuns] + rest;
    hide IsRun, After;
  }

  /** An active session nobody is inside of is stopped. */
  lemma Halt(s: System, i: nat) returns (run: seq<Action>)
    requires Inv(s) && s.worker == Ready && i < |s.sessions| && s.sessions[i].state == Active && s.sessions[i].owns
    requires !CountedIn(s.thunk, s.sessions[i].target)
    ensures IsRun(s, run) && Inv(After(s, run)) && OthersKept(s, After(s, run), i)
    ensures var t := After(s, run); t.worker == Ready && t.nextTarget == s.nextTarget && !t.reserved
  {
    hide Sound, RingsOk, SnapshotOk, InFlightExact, ThunkOk, Produce, Consume;
    var begin := Begin(Stop(i));
    StepPreserves(s, begin);
    OneStep(s, begin);
    var rest := TerminationEnds(Do(s, begin), i);
    RunAppend(s, [begin], rest);
    run := [begin] + rest;
    hide IsRun, After;
  }

  /** A callback loads the first session's target; the session is stopped, rightly not waiting for it. */
  lemma SlowCallback(filler: Record) returns (run: seq<Action>)
    ensures IsRun(Initial(3, filler), run)
    ensures var s := After(Initial(3, filler), run);
            && Inv(s) && s.thunk == Loaded(0, 1) && s.worker == Ready && !s.reserved && s.nextTarget == 1
            && |s.sessions| == 3 && s.sessions[1].state == Idle && s.sessions[2].state == Idle
  {
    var start, call := Initial(3, filler), HostCalls(1);
    InitialInv(3, filler);
    var up := Launch(start, 0);
    var s := After(start, up);
    InvIsShaped(s);
    hide Inv, IsRun, After, Shaped;
    StepPreserves(s, call);
    OneStep(s, call);
    RunAppend(start, up, [call]);
    var down := Halt(Do(s, call), 0);
    RunAppend(start, up + [call], down);
    run := up + [call] + down;
  }

  /** The hypothesis is no law of the code: three sessions and one slow callback break it. The second session
      comes and goes as well, and the third is about to reset the target the callback still holds. */
  lemma UnsafeResetIsReachable(filler: Record) returns (run: seq<Action>)
    ensures IsRun(Initial(3, filler), run)
    ensures var s := After(Initial(3, filler), run);
            Inv(s) && s.worker.Reserving? && !s.reserved && !ResetIsSafe(s)
  {
    hide Inv, IsRun, After, Initial, Shaped;
    var start, begin := Initial(3, filler), Begin(Bootstrap(2, true, HostAccepted));
    var slow := SlowCallback(filler);
    var s := After(start, slow);
    var up := Launch(s, 1);
    RunAppend(start, slow, up);
    var down := Halt(After(s, up), 1);
    RunAppend(start, slow + up, down);
    var last := After(After(s, up), down);
    InvIsShaped(last);
    StepPreserves(last, begin);
    OneStep(last, begin);
    RunAppend(start, slow + up + down, [begin]);
    run := slow + up + down + [begin];
  }

  /** So teardown's promise fails without it, from the initial state: the third session has stopped waiting, a
      callback is inside its target, and the callback's next access changes the counters being kept. */
  lemma TeardownCanBeIntruded(filler: Record) returns (run: seq<Action>, more: seq<Action>)
    ensures IsRun(Initial(3, filler), run) && Inv(After(Initial(3, filler), run))
    ensures IsFreeRun(After(Initial(3, filler), run), more) && Intruded(AfterFree(After(Initial(3, filler), run), more))
  {
    hide Inv, IsRun, After, Initial, Shaped;
    run := UnsafeResetIsReachable(filler);
    var s := After(Initial(3, filler), run);
    UnsafeIsDoomed(s);
    more := DoomedIsIntruded(s, s.worker.i, s.nextTarget);
  }
}
