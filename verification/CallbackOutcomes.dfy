/** Where each session operation and each callback ends up, whatever runs in between. */
module CallbackOutcomes {
  import opened Words
  import opened CallbackRing
  import opened CallbackTarget
  import opened CallbackSession
  import opened CallbackRuns

  // ---- Stop and fail ----

  /** The session has ended so, or is being brought to that end. */
  predicate Heading(s: System, i: nat, final: SessionState) {
    && i < |s.sessions|
    && (s.sessions[i].state == final || (Ending(s.worker) && s.worker.i == i && s.worker.final == final))
  }

  /** What can bring session `i` to that end. */
  predicate Causes(a: Action, i: nat, final: SessionState) {
    && a.Begin? && a.command.i == i
    && match a.command
       case Stop(_) => final == Stopped
       case Fail(_) => final == Failed
       case Bootstrap(_, resolved, validation) => final == Failed && (!resolved || validation == HostInvalid)
       case _ => false
  }

  predicate Begun(run: seq<Action>, command: Command) {
    exists k | 0 <= k < |run| :: run[k] == Begin(command)
  }

  predicate Caused(run: seq<Action>, i: nat, final: SessionState) {
    exists k | 0 <= k < |run| :: Causes(run[k], i, final)
  }

  /** The host thread changes targets only. */
  lemma HostFrame(s: System, a: Action)
    requires Shaped(s) && Enabled(s, a) && (a.HostCalls? || a.ThunkRuns?)
    ensures var after := Do(s, a);
            after == s.(targets := after.targets, thunk := after.thunk)
  {
    hide Produce, Indexed;
  }

  lemma HeadingWorker(s: System, i: nat, final: SessionState)
    requires Inv(s) && s.worker != Ready && i < |s.sessions| && Ended(final)
    ensures Heading(RunWorker(s), i, final) <==> Heading(s, i, final)
  {
    hide Sound, Consume, Exclusive, RingsOk, ThunkOk, SnapshotOk, InFlightExact, ResetStore, Load;
  }

  /** Starting an operation keeps an ended session ended the same way, unless a failed one is stopped; and ends a
      session only for cause. */
  lemma HeadingStart(s: System, command: Command, i: nat, final: SessionState)
    requires s.worker == Ready && command.i < |s.sessions| && i < |s.sessions| && Ended(final)
    requires s.sessions[command.i].owns <==> s.sessions[command.i].state == Active
    ensures Heading(s, i, final) && (final == Stopped || command != Stop(i)) ==> Heading(Start(s, command), i, final)
    ensures Heading(Start(s, command), i, final) ==> Heading(s, i, final) || Causes(Begin(command), i, final)
    ensures command == Stop(i) && final == Stopped ==> Heading(Start(s, command), i, final)
    ensures command == Fail(i) && final == Failed && s.sessions[i].state != Stopped ==> Heading(Start(s, command), i, final)
  {
  }

  /** Between operations, the owner is the active session. */
  lemma OwnsIffActive(s: System, i: nat)
    requires Inv(s) && s.worker == Ready && i < |s.sessions|
    ensures s.sessions[i].owns <==> s.sessions[i].state == Active
  {
    hide Sound, Exclusive, RingsOk, ThunkOk, SnapshotOk, InFlightExact;
  }

  lemma HeadingStep(s: System, a: Action, i: nat, final: SessionState)
    requires Inv(s) && Enabled(s, a) && i < |s.sessions| && Ended(final)
    ensures |Do(s, a).sessions| == |s.sessions|
    ensures Heading(s, i, final) && (final == Stopped || a != Begin(Stop(i))) ==> Heading(Do(s, a), i, final)
    ensures Heading(Do(s, a), i, final) ==> Heading(s, i, final) || Causes(a, i, final)
    ensures a == Begin(Stop(i)) && final == Stopped ==> Heading(Do(s, a), i, final)
    ensures a == Begin(Fail(i)) && final == Failed && !Heading(s, i, Stopped) ==> Heading(Do(s, a), i, final)
  {
    SessionsStay(s, a);
    InvIsShaped(s);
    hide Inv, RunWorker, RunThunk, Start, Causes;
    match a
    case HostCalls(_) => HostFrame(s, a);
    case ThunkRuns => HostFrame(s, a);
    case Begin(command) =>
      OwnsIffActive(s, command.i);
      HeadingStart(s, command, i, final);
    case WorkerRuns => HeadingWorker(s, i, final);
  }

  lemma SessionsStay(s: System, a: Action)
    requires Inv(s) && Enabled(s, a)
    ensures |Do(s, a).sessions| == |s.sessions|
  {
    InvIsShaped(s);
    match a
    case HostCalls(_) => HostFrame(s, a);
    case ThunkRuns => HostFrame(s, a);
    case Begin(_) =>
    case WorkerRuns => WorkerKeepsCount(s);
    hide Inv, RunThunk, RunWorker;
  }

  lemma WorkerKeepsCount(s: System)
    requires Shaped(s)
    ensures |RunWorker(s).sessions| == |s.sessions|
  {
    hide Consume, ResetStore, Load;
  }

  lemma {:induction false} HeadingRun(s: System, run: seq<Action>, i: nat, final: SessionState)
    requires Inv(s) && IsRun(s, run) && Heading(s, i, final) && Ended(final)
    requires final == Stopped || !Begun(run, Stop(i))
    ensures Heading(After(s, run), i, final)
    decreases |run|
  {
    hide Inv, Do;
    if run != [] {
      StepPreserves(s, run[0]);
      HeadingStep(s, run[0], i, final);
      HeadingRun(Do(s, run[0]), run[1..], i, final);
    }
  }

  /** A stop begun anywhere in a run takes. */
  lemma {:induction false} StopTakes(s: System, run: seq<Action>, i: nat, k: nat)
    requires Inv(s) && IsRun(s, run) && i < |s.sessions| && k < |run| && run[k] == Begin(Stop(i))
    ensures Heading(After(s, run), i, Stopped)
    decreases |run|
  {
    hide Inv, Do, Heading;
    StepPreserves(s, run[0]);
    HeadingStep(s, run[0], i, Stopped);
    if k == 0 {
      HeadingRun(Do(s, run[0]), run[1..], i, Stopped);
    } else {
      StopTakes(Do(s, run[0]), run[1..], i, k - 1);
    }
  }

  /** A fail begun anywhere in a run takes, unless a stop is begun too. */
  lemma {:induction false} FailTakes(s: System, run: seq<Action>, i: nat, k: nat)
    requires Inv(s) && IsRun(s, run) && i < |s.sessions| && k < |run| && run[k] == Begin(Fail(i))
    requires !Heading(s, i, Stopped) && !Begun(run, Stop(i))
    ensures Heading(After(s, run), i, Failed)
    decreases |run|
  {
    hide Inv, Do, Heading;
    StepPreserves(s, run[0]);
    HeadingStep(s, run[0], i, Stopped);
    HeadingStep(s, run[0], i, Failed);
    assert run[0] != Begin(Stop(i)) && !Begun(run[1..], Stop(i));
    if k == 0 {
      HeadingRun(Do(s, run[0]), run[1..], i, Failed);
    } else {
      FailTakes(Do(s, run[0]), run[1..], i, k - 1);
    }
  }

  /** No session ends without cause. */
  lemma {:induction false} EndsForCause(s: System, run: seq<Action>, i: nat, final: SessionState)
    requires Inv(s) && IsRun(s, run) && i < |s.sessions| && Ended(final)
    requires !Heading(s, i, final) && Heading(After(s, run), i, final)
    ensures Caused(run, i, final)
    decreases |run|
  {
    hide Inv, Do, Heading, Causes;
    if run != [] {
      StepPreserves(s, run[0]);
      HeadingStep(s, run[0], i, final);
      if !Causes(run[0], i, final) {
        EndsForCause(Do(s, run[0]), run[1..], i, final);
        var k :| 0 <= k < |run[1..]| && Causes(run[1..][k], i, final);
        assert Causes(run[k + 1], i, final);
      }
    }
  }

  lemma SessionCount(s: System, run: seq<Action>)
    requires Inv(s) && IsRun(s, run)
    ensures |After(s, run).sessions| == |s.sessions|
    decreases |run|
  {
    hide Inv, Do;
    if run != [] {
      SessionsStay(s, run[0]);
      StepPreserves(s, run[0]);
      SessionCount(Do(s, run[0]), run[1..]);
    }
  }

  lemma NoneHeading(n: nat, filler: Record, i: nat, final: SessionState)
    requires i < n && Ended(final)
    ensures !Heading(Initial(n, filler), i, final) && |Initial(n, filler).sessions| == n
  {
  }

  /** In every interleaving, whenever no operation is under way: a session is stopped exactly when a stop was begun
      on it; it has failed only if none was, and a fail or a bootstrap without a valid host was; and a fail that no
      stop goes with has failed it. A session that has ended owns nothing. */
  lemma EndsAsAsked(n: nat, filler: Record, run: seq<Action>, i: nat)
    requires IsRun(Initial(n, filler), run) && After(Initial(n, filler), run).worker == Ready && i < n
    ensures |After(Initial(n, filler), run).sessions| == n
    ensures var session := After(Initial(n, filler), run).sessions[i];
            && (session.state == Stopped <==> Begun(run, Stop(i)))
            && (session.state == Failed ==> !Begun(run, Stop(i)) && Caused(run, i, Failed))
            && (Begun(run, Fail(i)) && !Begun(run, Stop(i)) ==> session.state == Failed)
            && (Ended(session.state) ==> !session.owns && !session.registered)
  {
    hide IsRun, After, Sound, Indexed;
    var s := Initial(n, filler);
    InitialInv(n, filler);
    NoneHeading(n, filler, i, Stopped);
    NoneHeading(n, filler, i, Failed);
    EveryRunIsSound(s, run);
    SessionCount(s, run);
    var after := After(s, run);
    assert forall final :: Heading(after, i, final) <==> after.sessions[i].state == final;
    if k :| 0 <= k < |run| && run[k] == Begin(Stop(i)) {
      StopTakes(s, run, i, k);
    } else if k :| 0 <= k < |run| && run[k] == Begin(Fail(i)) {
      FailTakes(s, run, i, k);
    }
    if after.sessions[i].state == Stopped {
      EndsForCause(s, run, i, Stopped);
    } else if after.sessions[i].state == Failed {
      EndsForCause(s, run, i, Failed);
    }
  }

  /** From any state the invariant allows: once no operation is under way again, a stopped session is Stopped. */
  lemma StopEndsStopped(s: System, run: seq<Action>, i: nat)
    requires Inv(s) && s.worker == Ready && i < |s.sessions|
    requires IsRun(Do(s, Begin(Stop(i))), run) && After(Do(s, Begin(Stop(i))), run).worker == Ready
    ensures var after := After(Do(s, Begin(Stop(i))), run);
            i < |after.sessions| && after.sessions[i].state == Stopped && !after.sessions[i].owns && !after.sessions[i].registered
  {
    StepPreserves(s, Begin(Stop(i)));
    HeadingStep(s, Begin(Stop(i)), i, Stopped);
    HeadingRun(Do(s, Begin(Stop(i))), run, i, Stopped);
    EveryRunIsSound(Do(s, Begin(Stop(i))), run);
    hide IsRun, After, Start, Sound, Indexed;
  }

  /** Likewise a failed one is Failed, unless it was, or meanwhile is, stopped. */
  lemma FailEndsFailed(s: System, run: seq<Action>, i: nat)
    requires Inv(s) && s.worker == Ready && i < |s.sessions| && s.sessions[i].state != Stopped
    requires IsRun(Do(s, Begin(Fail(i))), run) && After(Do(s, Begin(Fail(i))), run).worker == Ready
    requires !Begun(run, Stop(i))
    ensures var after := After(Do(s, Begin(Fail(i))), run);
            i < |after.sessions| && after.sessions[i].state == Failed && !after.sessions[i].owns && !after.sessions[i].registered
  {
    StepPreserves(s, Begin(Fail(i)));
    HeadingStep(s, Begin(Fail(i)), i, Failed);
    HeadingRun(Do(s, Begin(Fail(i))), run, i, Failed);
    EveryRunIsSound(Do(s, Begin(Fail(i))), run);
    hide IsRun, After, Start, Sound, Indexed;
  }

  // ---- Bootstrap and retry ----

  /** Nothing but the state of session `i` has changed. */
  predicate OnlyState(s: System, after: System, i: nat, state: SessionState) {
    i < |s.sessions| && after == s.(sessions := s.sessions[i := s.sessions[i].(state := state)])
  }

  /** Every operation that ends before its first shared access, and what it leaves. */
  lemma RefusedOperations(s: System, command: Command)
    requires Inv(s) && s.worker == Ready && command.i < |s.sessions|
    ensures var after, state := Do(s, Begin(command)), s.sessions[command.i].state;
            match command
            case Bootstrap(i, resolved, validation) =>
              if state != Idle then after == s
              else if !resolved || validation == HostInvalid then OnlyState(s, after, i, Failed)
              else validation == HostNotReady ==> OnlyState(s, after, i, WaitingForRenderInfo)
            case Retry(i, renderReady) =>
              if state !in {WaitingForRenderInfo, WaitingForProcessSlot} then after == s
              else !renderReady ==> OnlyState(s, after, i, WaitingForRenderInfo)
            case Stop(i) =>
              if state == Stopped then after == s else state != Active ==> OnlyState(s, after, i, Stopped)
            case Fail(i) =>
              if state == Stopped then after == s else state != Active ==> OnlyState(s, after, i, Failed)
            case Drain(_, _) => state != Active ==> after == s
  {
    hide Sound, Exclusive, RingsOk, ThunkOk, SnapshotOk, InFlightExact;
  }

  /** The operation goes on to reserve the process slot. */
  predicate Activates(s: System, command: Command)
    requires command.i < |s.sessions|
  {
    match command
    case Bootstrap(i, resolved, validation) => s.sessions[i].state == Idle && resolved && validation == HostAccepted
    case Retry(i, renderReady) => s.sessions[i].state in {WaitingForRenderInfo, WaitingForProcessSlot} && renderReady
    case _ => false
  }

  predicate NothingBegun(run: seq<Action>) {
    forall k | 0 <= k < |run| :: !run[k].Begin?
  }

  /** Where session `i`'s activation from `s` may be. */
  predicate Activating(s: System, now: System, i: nat) {
    && i < |s.sessions| && |now.sessions| == |s.sessions|
    && match now.worker
       case Reserving(j) => j == i && now == s.(worker := now.worker, thunk := now.thunk, targets := now.targets)
       case Resetting(_, _) | Publishing(_) =>
         now.worker.i == i && !s.reserved && now.reserved && now.sessions[i].target == s.nextTarget && now.registrations == s.registrations
         && now.nextTarget + s.nextTarget == 1
       case Registering(j) =>
         && j == i && !s.reserved && now.reserved && now.sessions[i].target == s.nextTarget && now.sessions[i].owns
         && now.published == Some(s.nextTarget) && now.registrations == s.registrations
         && now.nextTarget + s.nextTarget == 1
       case Ready => if s.reserved then TurnedAway(s, now, i) else TookSlot(s, now, i)
       case _ => false
  }

  predicate TurnedAway(s: System, now: System, i: nat) {
    i < |s.sessions| && OnlyState(s.(thunk := now.thunk, targets := now.targets), now, i, WaitingForProcessSlot)
  }

  predicate TookSlot(s: System, now: System, i: nat) {
    && i < |now.sessions| && now.sessions[i].state == Active && now.sessions[i].owns && now.sessions[i].registered
    && now.sessions[i].target == s.nextTarget && now.published == Some(s.nextTarget) && now.reserved
    && now.registrations == s.registrations + 1 && now.nextTarget + s.nextTarget == 1
  }

  lemma ActivatingStep(s: System, now: System, i: nat, a: Action)
    requires Inv(now) && Enabled(now, a) && !a.Begin? && s.worker == Ready && Activating(s, now, i)
    ensures Activating(s, Do(now, a), i)
  {
    InvIsShaped(now);
    match a
    case HostCalls(_) => HostFrame(now, a);
    case ThunkRuns => HostFrame(now, a);
    case WorkerRuns => ActivatingWorker(s, now, i);
    hide Inv, RunThunk, RunWorker;
  }

  lemma ActivatingWorker(s: System, now: System, i: nat)
    requires Shaped(now) && now.worker != Ready && s.worker == Ready && Activating(s, now, i)
    ensures Activating(s, RunWorker(now), i)
  {
    hide Consume, ResetStore, Load;
  }

  lemma {:induction false} ActivatingRun(s: System, now: System, i: nat, run: seq<Action>)
    requires Inv(now) && IsRun(now, run) && NothingBegun(run) && s.worker == Ready && Activating(s, now, i)
    ensures Activating(s, After(now, run), i)
    decreases |run|
  {
    hide Inv, Do, Activating;
    if run != [] {
      StepPreserves(now, run[0]);
      ActivatingStep(s, now, i, run[0]);
      ActivatingRun(s, Do(now, run[0]), i, run[1..]);
    }
  }

  /** An accepted bootstrap, or a retry with the renderer ready, once it is over and whatever the host did
      meanwhile: with the slot taken the session waits for it and nothing else of any session has changed; with the
      slot free the session is Active, registered once, and owns the slot and the next target, now published; and the
      other target is next. */
  lemma ActivationEnds(s: System, command: Command, run: seq<Action>)
    requires Inv(s) && s.worker == Ready && command.i < |s.sessions| && Activates(s, command)
    requires IsRun(Do(s, Begin(command)), run) && NothingBegun(run) && After(Do(s, Begin(command)), run).worker == Ready
    ensures var after := After(Do(s, Begin(command)), run);
            if s.reserved then TurnedAway(s, after, command.i) else TookSlot(s, after, command.i)
  {
    StepPreserves(s, Begin(command));
    assert Activating(s, Do(s, Begin(command)), command.i);
    ActivatingRun(s, Do(s, Begin(command)), command.i, run);
    hide IsRun, After, Inv, Start;
  }

  // ---- Drain ----

  /** Of what was accepted at the start, and of what has been since, the oldest `room` records or all of those that
      were already there have been taken. */
  predicate TookUpTo(start: Log, log: Log, room: nat) {
    && start.taken <= log.taken && start.accepted <= log.accepted
    && |log.taken| <= |start.taken| + room
    && (|log.taken| == |start.taken| + room || |log.taken| >= |start.accepted|)
  }

  /** Where a drain of target `t` into `room` places, begun with the log at `start`, may be. */
  predicate DrainingFrom(start: Log, log: Log, consumer: Consumer, room: nat) {
    && start.accepted <= log.accepted
    && match consumer
       case Draining(r) => r == room && log.taken == start.taken
       case SawRead(r, _) => r == room && log.taken == start.taken
       case Copying(r, _, _, limit, _) => r == room && log.taken == start.taken && |start.accepted| <= limit
       case Copied(_, out) =>
         && log.taken == start.taken && |out| <= room
         && (|out| == room || |log.taken| + |out| >= |start.accepted|)
       case Advanced(_) => TookUpTo(start, log, room)
       case Resting => TookUpTo(start, log, room)
  }

  lemma ConsumeDrains(start: Log, ring: Ring, log: Log, producer: Producer, consumer: Consumer, room: nat)
    requires Sound(ring, log, producer, consumer) && DrainingFrom(start, log, consumer, room)
    ensures var after := Consume(ring, log, consumer); DrainingFrom(start, after.log, after.consumer, room)
  {
    if consumer.Copying? {
      DifferenceSurvivesWrap(consumer.limit, |log.taken| + |consumer.out|);
    }
    hide Counted, Serialized, ProducerOk;
  }

  lemma ProduceDrains(start: Log, ring: Ring, log: Log, producer: Producer, consumer: Consumer, room: nat)
    requires |ring.slots| == CAPACITY && DrainingFrom(start, log, consumer, room)
    ensures DrainingFrom(start, Produce(ring, log, producer).log, consumer, room)
  {
    hide Translate;
  }

  predicate DrainUnderWay(start: Log, now: System, i: nat, t: nat, room: nat) {
    && Shaped(now) && t < TARGETS && i < |now.sessions| && now.sessions[i].target == t
    && (now.worker == Ready || (now.worker.Draining? && now.worker.i == i))
    && DrainingFrom(start, now.targets[t].log, ConsumerAt(now, t), room)
  }

  lemma DrainThunk(start: Log, now: System, i: nat, t: nat, room: nat)
    requires Inv(now) && now.thunk != Away && DrainUnderWay(start, now, i, t, room)
    ensures DrainUnderWay(start, RunThunk(now), i, t, room)
  {
    ThunkPreserves(now);
    InvIsShaped(RunThunk(now));
    HostFrame(now, ThunkRuns);
    if now.thunk.Inside? && now.thunk.target == t {
      ProduceDrains(start, now.targets[t].ring, now.targets[t].log, now.thunk.producer, ConsumerAt(now, t), room);
    }
    hide Inv, Produce, DrainingFrom;
    InvIsShaped(now);
  }

  lemma DrainWorker(start: Log, now: System, i: nat, t: nat, room: nat)
    requires Inv(now) && now.worker.Draining? && DrainUnderWay(start, now, i, t, room)
    ensures DrainUnderWay(start, RunWorker(now), i, t, room)
  {
    WorkerPreserves(now);
    InvIsShaped(RunWorker(now));
    ConsumeDrains(start, now.targets[t].ring, now.targets[t].log, ProducerAt(now, t), now.worker.consumer, room);
    hide Consume, DrainingFrom, Sound, Exclusive, SessionsOk, InFlightExact, ThunkOk, SnapshotOk;
  }

  lemma DrainStep(start: Log, now: System, i: nat, t: nat, room: nat, a: Action)
    requires Inv(now) && Enabled(now, a) && !a.Begin? && DrainUnderWay(start, now, i, t, room)
    ensures DrainUnderWay(start, Do(now, a), i, t, room)
  {
    StepPreserves(now, a);
    InvIsShaped(Do(now, a));
    InvIsShaped(now);
    hide Inv, RunThunk, RunWorker, DrainingFrom;
    match a
    case HostCalls(_) => HostFrame(now, a);
    case ThunkRuns => DrainThunk(start, now, i, t, room);
    case WorkerRuns => DrainWorker(start, now, i, t, room);
  }

  lemma {:induction false} DrainRun(start: Log, now: System, i: nat, t: nat, room: nat, run: seq<Action>)
    requires Inv(now) && IsRun(now, run) && NothingBegun(run) && DrainUnderWay(start, now, i, t, room)
    ensures DrainUnderWay(start, After(now, run), i, t, room)
    decreases |run|
  {
    hide Inv, Do, DrainUnderWay;
    if run != [] {
      StepPreserves(now, run[0]);
      DrainStep(start, now, i, t, room, run[0]);
      DrainRun(start, Do(now, run[0]), i, t, room, run[1..]);
    }
  }

  /** A drain of an active session, once over and whatever callbacks arrived meanwhile, has taken as many of the
      oldest records as it had room for, or at least every record that was waiting when it began. */
  lemma DrainTakesWhatWaits(s: System, i: nat, room: nat, run: seq<Action>)
    requires Inv(s) && s.worker == Ready && i < |s.sessions| && s.sessions[i].state == Active
    requires IsRun(Do(s, Begin(Command.Drain(i, room))), run) && NothingBegun(run)
    requires After(Do(s, Begin(Command.Drain(i, room))), run).worker == Ready
    ensures var after, t := After(Do(s, Begin(Command.Drain(i, room))), run), s.sessions[i].target;
            t < |s.targets| && t < |after.targets| && TookUpTo(s.targets[t].log, after.targets[t].log, room)
  {
    var begun, t := Do(s, Begin(Command.Drain(i, room))), s.sessions[i].target;
    StepPreserves(s, Begin(Command.Drain(i, room)));
    DrainOpens(s, i, room);
    DrainRun(s.targets[t].log, begun, i, t, room, run);
    hide IsRun, After, Inv, Start;
  }

  lemma DrainOpens(s: System, i: nat, room: nat)
    requires Inv(s) && s.worker == Ready && i < |s.sessions| && s.sessions[i].state == Active
    ensures s.sessions[i].target < |s.targets|
    ensures DrainUnderWay(s.targets[s.sessions[i].target].log, Do(s, Begin(Command.Drain(i, room))), i, s.sessions[i].target, room)
  {
    StartPreserves(s, Command.Drain(i, room));
    hide Sound, RingsOk, InFlightExact, ThunkOk, SnapshotOk, Exclusive;
  }

  // ---- A callback left alone ----

  predicate OnlyThunk(run: seq<Action>) {
    forall k | 0 <= k < |run| :: run[k] == ThunkRuns
  }

  /** The host thread is delivering callback `id` to the target published in `s`, and nothing else has happened. */
  predicate Delivering(s: System, now: System, id: int, t: nat) {
    && Shaped(s) && Shaped(now) && t < TARGETS && s.published == Some(t)
    && now == SetTarget(s, t, now.targets[t]).(thunk := now.thunk)
    && var ring, target := s.targets[t].ring, now.targets[t];
       match now.thunk
       case Loaded(u, d) => u == t && d == id && target == s.targets[t]
       case Entered(u, d) => u == t && d == id && target == s.targets[t].(inFlight := (s.targets[t].inFlight + 1) % 0x1_0000_0000)
       case Inside(u, producer) =>
         && u == t && target.inFlight == (s.targets[t].inFlight + 1) % 0x1_0000_0000
         && RunProducer(target.ring, target.log, producer).ring == Delivered(ring, id)
       case Leaving(_) => false
       case Away => target.inFlight == s.targets[t].inFlight && target.ring == Delivered(ring, id)
  }

  lemma DeliveringEnters(s: System, now: System, id: int, t: nat)
    requires Shaped(now) && !now.thunk.Away? && !now.thunk.Inside? && Delivering(s, now, id, t) && Shaped(RunThunk(now))
    ensures Delivering(s, RunThunk(now), id, t)
  {
    hide Produce, Delivered, RunProducer;
    CallbackIsItsSteps(s.targets[t].ring, s.targets[t].log, id);
  }

  lemma OneStepOfMany(ring: Ring, log: Log, producer: Producer)
    requires |ring.slots| == CAPACITY
    ensures var side := Produce(ring, log, producer);
            && |side.ring.slots| == CAPACITY
            && RunProducer(side.ring, side.log, side.producer).ring == RunProducer(ring, log, producer).ring
    ensures producer.Finished? ==> RunProducer(ring, log, producer).ring == ring
  {
  }

  lemma DeliveringProduces(s: System, now: System, id: int, t: nat)
    requires Shaped(now) && now.thunk.Inside? && Delivering(s, now, id, t) && Shaped(RunThunk(now))
    ensures Delivering(s, RunThunk(now), id, t)
  {
    hide Produce, Delivered, RunProducer;
    OneStepOfMany(now.targets[t].ring, now.targets[t].log, now.thunk.producer);
  }

  lemma DeliveringStep(s: System, now: System, id: int, t: nat)
    requires Inv(now) && now.thunk != Away && Delivering(s, now, id, t)
    ensures Delivering(s, RunThunk(now), id, t)
  {
    ThunkPreserves(now);
    InvIsShaped(RunThunk(now));
    if now.thunk.Inside? {
      DeliveringProduces(s, now, id, t);
    } else {
      DeliveringEnters(s, now, id, t);
    }
    InvIsShaped(now);
    hide Inv, Delivering, RunThunk;
  }

  lemma {:induction false} DeliveringRun(s: System, now: System, id: int, t: nat, run: seq<Action>)
    requires Inv(now) && IsRun(now, run) && OnlyThunk(run) && Delivering(s, now, id, t)
    ensures Delivering(s, After(now, run), id, t)
    decreases |run|
  {
    hide Inv, RunThunk, Delivering;
    if run != [] {
      StepPreserves(now, run[0]);
      DeliveringStep(s, now, id, t);
      DeliveringRun(s, Do(now, run[0]), id, t, run[1..]);
    }
  }

  /** A callback the host makes, run to its end with no operation in between: nothing at all without a published
      target, and otherwise exactly its delivery to that target. */
  lemma CallDelivers(s: System, id: int, run: seq<Action>)
    requires Inv(s) && s.thunk == Away && OnlyThunk(run)
    requires IsRun(Do(s, HostCalls(id)), run) && After(Do(s, HostCalls(id)), run).thunk == Away
    ensures s.published == None ==> After(Do(s, HostCalls(id)), run) == s
    ensures s.published.Some? ==>
              var after, t := After(Do(s, HostCalls(id)), run), s.published.value;
              && t < |s.targets| && |s.targets[t].ring.slots| == CAPACITY && t < |after.targets|
              && after == s.(targets := s.targets[t := after.targets[t]])
              && after.targets[t].inFlight == s.targets[t].inFlight
              && after.targets[t].ring == Delivered(s.targets[t].ring, id)
  {
    StepPreserves(s, HostCalls(id));
    InvIsShaped(s);
    InvIsShaped(Do(s, HostCalls(id)));
    if s.published.Some? {
      DeliveringRun(s, Do(s, HostCalls(id)), id, s.published.value, run);
    }
    hide Inv, Delivered, RunThunk;
  }
}
