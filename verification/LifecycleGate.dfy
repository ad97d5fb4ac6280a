/** The lifecycle gate: when product mutation is permitted, and how saves nest. */
module LifecycleGate {
  import opened Words

  datatype State =
    | InactiveBootstrap | Active | QuiesceRequested | BaselineRestored | SaveInProgress
    | ReapplyPending | Shutdown | Stopped | Failed

  datatype Event =
    | Activate | BeginSave | SaveSucceeded | SaveFailed | SaveCancelled
    | ReapplyAtVerifiedBarrier | RequestShutdown | CompleteShutdown | Interrupt

  datatype Status = Accepted | Rejected

  datatype Diagnostic = NoDiagnostic | InvalidEventForState | BaselineRestorationNotAcknowledged

  datatype TransitionResult = TransitionResult(
    status: Status, diagnostic: Diagnostic, previous: State, current: State, generation: Word, permitted: bool)

  /** The three fields of a gate. */
  datatype Gate = Gate(state: State, generation: Word, saveDepth: Word)

  /** An event together with whether the caller acknowledged baseline restoration. */
  datatype Input = Input(event: Event, acknowledged: bool)

  const INITIAL := Gate(InactiveBootstrap, 0, 0)

  function Increment(x: Word): Word {
    if x == WORD_LIMIT - 1 then 0 else x + 1
  }

  function Decrement(x: Word): Word {
    if x == 0 then WORD_LIMIT - 1 else x - 1
  }

  /** Why an input is turned away, if it is. */
  function Objection(state: State, input: Input): Diagnostic {
    var legal := match input.event
      case Activate => state == InactiveBootstrap
      case BeginSave => state == Active || state == SaveInProgress
      case SaveSucceeded | SaveFailed | SaveCancelled => state == SaveInProgress
      case ReapplyAtVerifiedBarrier => state == ReapplyPending
      case CompleteShutdown => state == Shutdown
      case RequestShutdown | Interrupt => state !in {Shutdown, Stopped, Failed};
    if !legal then InvalidEventForState
    else if state == Active && !input.acknowledged then BaselineRestorationNotAcknowledged
    else NoDiagnostic
  }

  /** The gate after one input. */
  function Next(g: Gate, input: Input): Gate {
    if Objection(g.state, input) != NoDiagnostic then g
    else
      match input.event
      case Activate | ReapplyAtVerifiedBarrier => g.(state := Active, generation := Increment(g.generation))
      case BeginSave => if g.state == Active then g.(state := SaveInProgress, saveDepth := 1)
                        else g.(saveDepth := Increment(g.saveDepth))
      case SaveSucceeded | SaveFailed | SaveCancelled =>
        var depth := Decrement(g.saveDepth);
        g.(saveDepth := depth, state := if depth == 0 then ReapplyPending else SaveInProgress)
      case RequestShutdown => g.(saveDepth := 0, state := Shutdown)
      case CompleteShutdown => g.(state := Stopped)
      case Interrupt => g.(saveDepth := 0, state := Failed)
  }

  class LifecycleGate {
    var state: State
    var generation: Word
    var saveDepth: Word

    constructor ()
      ensures View() == INITIAL
    {
      state, generation, saveDepth := InactiveBootstrap, 0, 0;
    }

    function View(): Gate
      reads this
    {
      Gate(state, generation, saveDepth)
    }

    predicate ProductMutationPermitted()
      reads this
    {
      state == Active
    }

    method Dispatch(event: Event, acknowledged: bool := false) returns (result: TransitionResult)
      modifies this
      ensures View() == Next(old(View()), Input(event, acknowledged))
      ensures result.diagnostic == Objection(old(state), Input(event, acknowledged))
      ensures result.status == Accepted <==> result.diagnostic == NoDiagnostic
      ensures result.previous == old(state) && result.current == state && result.generation == generation
      ensures result.permitted == ProductMutationPermitted()
      ensures result.permitted <==> result.current == Active
    {
      var previous := state;
      var diagnostic := NoDiagnostic;
      match event {
        case Activate =>
          if state != InactiveBootstrap {
            diagnostic := InvalidEventForState;
          } else {
            state := Active;
            generation := Increment(generation);
          }
        case BeginSave =>
          if state == SaveInProgress {
            saveDepth := Increment(saveDepth);
          } else if state != Active {
            diagnostic := InvalidEventForState;
          } else if !acknowledged {
            diagnostic := BaselineRestorationNotAcknowledged;
          } else {
            state := QuiesceRequested;
            state := BaselineRestored;
            state := SaveInProgress;
            saveDepth := 1;
          }
        case SaveSucceeded | SaveFailed | SaveCancelled =>
          if state != SaveInProgress {
            diagnostic := InvalidEventForState;
          } else {
            saveDepth := Decrement(saveDepth);
            if saveDepth == 0 {
              state := ReapplyPending;
            }
          }
        case ReapplyAtVerifiedBarrier =>
          if state != ReapplyPending {
            diagnostic := InvalidEventForState;
          } else {
            state := Active;
            generation := Increment(generation);
          }
        case RequestShutdown =>
          diagnostic := Leave(acknowledged);
          if diagnostic == NoDiagnostic {
            saveDepth := 0;
            state := Shutdown;
          }
        case CompleteShutdown =>
          if state != Shutdown {
            diagnostic := InvalidEventForState;
          } else {
            state := Stopped;
          }
        case Interrupt =>
          diagnostic := Leave(acknowledged);
          if diagnostic == NoDiagnostic {
            saveDepth := 0;
            state := Failed;
          }
      }
      result := TransitionResult(if diagnostic == NoDiagnostic then Accepted else Rejected, diagnostic,
                                 previous, state, generation, ProductMutationPermitted());
    }

    /** The common first half of shutdown and interruption. */
    method Leave(acknowledged: bool) returns (diagnostic: Diagnostic)
      modifies this`state
      ensures old(state) == Active && !acknowledged ==> diagnostic == BaselineRestorationNotAcknowledged && state == old(state)
      ensures old(state) in {Shutdown, Stopped, Failed} ==> diagnostic == InvalidEventForState && state == old(state)
      ensures old(state) !in {Shutdown, Stopped, Failed} && (old(state) == Active ==> acknowledged) ==>
                diagnostic == NoDiagnostic && state == if old(state) == Active then BaselineRestored else old(state)
    {
      diagnostic := NoDiagnostic;
      if state == Active {
        if !acknowledged {
          return BaselineRestorationNotAcknowledged;
        }
        state := QuiesceRequested;
        state := BaselineRestored;
      } else if state != InactiveBootstrap && state != QuiesceRequested && state != BaselineRestored
                && state != SaveInProgress && state != ReapplyPending {
        return InvalidEventForState;
      }
    }
  }

  // ---- Runs ----

  /** The gate after a whole run of inputs, oldest first. */
  function After(run: seq<Input>): Gate {
    if run == [] then INITIAL else Next(After(run[..|run| - 1]), run[|run| - 1])
  }

  /** What an observer of accepted transitions counts: entries into Active over the whole run, and the
      begins and outcomes of the current save episode. */
  datatype Tally = Tally(activations: nat, begins: nat, outcomes: nat)

  function Count(run: seq<Input>): Tally {
    if run == [] then Tally(0, 0, 0)
    else
      var earlier := run[..|run| - 1];
      Tick(Count(earlier), After(earlier).state, After(run).state, run[|run| - 1])
  }

  /** The tally after an input that took the gate from one state to another. */
  function Tick(t: Tally, from: State, to: State, input: Input): Tally {
    if Objection(from, input) != NoDiagnostic then t
    else if to == Active then t.(activations := t.activations + 1)
    else if from == Active then Tally(t.activations, if input.event == BeginSave then 1 else 0, 0)
    else if to in {Shutdown, Stopped, Failed} then t.(begins := 0, outcomes := 0)
    else if input.event == BeginSave then t.(begins := t.begins + 1)
    else t.(outcomes := t.outcomes + 1)
  }

  /** The gate's words are the tally, modulo 2^64. */
  predicate Tallied(g: Gate, t: Tally) {
    && g.state != QuiesceRequested && g.state != BaselineRestored
    && g.generation == t.activations % WORD_LIMIT
    && t.outcomes <= t.begins && g.saveDepth == (t.begins - t.outcomes) % WORD_LIMIT
    && (g.state == SaveInProgress ==> t.outcomes < t.begins)
    && (g.state in {Shutdown, Stopped, Failed} ==> t.outcomes == t.begins)
  }

  lemma StepTallied(g: Gate, t: Tally, input: Input)
    requires Tallied(g, t)
    ensures Tallied(Next(g, input), Tick(t, g.state, Next(g, input).state, input))
  {
    IncrementIsModular(t.activations);
    var open := t.begins - t.outcomes;
    IncrementIsModular(open);
    if open > 0 {
      DecrementIsModular(open);
    }
  }

  /** The saves that have begun and not ended. */
  function Outstanding(run: seq<Input>): int {
    Count(run).begins - Count(run).outcomes
  }

  /** At no point of the run are as many as 2^64 saves open at once. */
  ghost predicate NestingFits(run: seq<Input>) {
    run != [] ==> NestingFits(run[..|run| - 1]) && Outstanding(run) < WORD_LIMIT
  }

  lemma OneMore(run: seq<Input>, input: Input)
    ensures After(run + [input]) == Next(After(run), input)
    ensures Count(run + [input]) == Tick(Count(run), After(run).state, Next(After(run), input).state, input)
  {
    hide Next, Tick;
    assert (run + [input])[..|run|] == run;
  }

  /** Over every run: the transitional states are never rested in, the generation is the number of
      entries into Active modulo 2^64, the depth is the number of outstanding saves modulo 2^64, and, while
      nesting fits the counter, it is exactly that number, which is positive precisely while a save is in
      progress. */
  lemma {:induction false} EveryRunIsCounted(run: seq<Input>)
    ensures After(run).state !in {QuiesceRequested, BaselineRestored}
    ensures After(run).generation == Count(run).activations % WORD_LIMIT
    ensures Outstanding(run) >= 0 && After(run).saveDepth == Outstanding(run) % WORD_LIMIT
    ensures After(run).state == SaveInProgress ==> Outstanding(run) > 0
    ensures After(run).state in {Shutdown, Stopped, Failed} ==> Outstanding(run) == 0
    ensures NestingFits(run) ==>
              && After(run).saveDepth == Outstanding(run)
              && (After(run).state == SaveInProgress <==> Outstanding(run) > 0)
  {
    if run != [] {
      var earlier := run[..|run| - 1];
      EveryRunIsCounted(earlier);
      StepTallied(After(earlier), Count(earlier), run[|run| - 1]);
    }
  }

  lemma IncrementIsModular(n: nat)
    ensures Increment(n % WORD_LIMIT) == (n + 1) % WORD_LIMIT
  {
  }

  lemma DecrementIsModular(n: nat)
    requires n > 0
    ensures Decrement(n % WORD_LIMIT) == (n - 1) % WORD_LIMIT
  {
  }

  predicate IsOutcome(event: Event) {
    event == SaveSucceeded || event == SaveFailed || event == SaveCancelled
  }

  /** The last input ended the save although others were still open. */
  predicate EndsEarly(run: seq<Input>) {
    && run != []
    && After(run[..|run| - 1]).state == SaveInProgress && IsOutcome(run[|run| - 1].event)
    && After(run).state == ReapplyPending && Outstanding(run) > 0
  }

  predicate NeverEndsEarly(run: seq<Input>) {
    run != [] ==> NeverEndsEarly(run[..|run| - 1]) && !EndsEarly(run)
  }

  /** Exactly when an outcome ends the save too early: it leaves a positive multiple of 2^64 saves open. */
  lemma EndsEarlyIff(run: seq<Input>, outcome: Input)
    requires After(run).state == SaveInProgress && IsOutcome(outcome.event)
    ensures EndsEarly(run + [outcome]) <==> Outstanding(run) > 1 && Outstanding(run) % WORD_LIMIT == 1
  {
    EveryRunIsCounted(run);
    OneMore(run, outcome);
    assert (run + [outcome])[..|run|] == run;
    EveryRunIsCounted(run + [outcome]);
    hide After, Count, NestingFits;
  }

  /** As long as no save has ended early, saves are open exactly while the gate says one is in progress. */
  lemma {:induction false} OpenIffInProgress(run: seq<Input>)
    requires NeverEndsEarly(run)
    ensures Outstanding(run) > 0 <==> After(run).state == SaveInProgress
  {
    EveryRunIsCounted(run);
    if run != [] {
      OpenIffInProgress(run[..|run| - 1]);
    }
  }

  /** The saves begun and never ended over the whole run. `Outstanding` forgets those that a shutdown or an
      interruption, or a new begin after an early end, leaves behind; this does not. */
  function Unfinished(run: seq<Input>): int {
    if run == [] then 0
    else
      var earlier, input := run[..|run| - 1], run[|run| - 1];
      Unfinished(earlier)
      + if Objection(After(earlier).state, input) != NoDiagnostic then 0
        else if input.event == BeginSave then 1
        else if IsOutcome(input.event) then -1
        else 0
  }

  /** As long as no save has ended early, only the final states, which are never left for Active, forget any. */
  lemma {:induction false} NoneForgotten(run: seq<Input>)
    requires NeverEndsEarly(run)
    ensures After(run).state !in {Shutdown, Stopped, Failed} ==> Unfinished(run) == Outstanding(run)
    ensures After(run).state == Active ==> Unfinished(run) == 0
  {
    EveryRunIsCounted(run);
    OpenIffInProgress(run);
    if run != [] {
      var earlier := run[..|run| - 1];
      NoneForgotten(earlier);
      OpenIffInProgress(earlier);
      EveryRunIsCounted(earlier);
      assert Count(run) == Tick(Count(earlier), After(earlier).state, After(run).state, run[|run| - 1]);
    }
  }

  /** With fewer than 2^64 saves open at any time none ends early. */
  lemma {:induction false} FittingNeverEndsEarly(run: seq<Input>)
    requires NestingFits(run)
    ensures NeverEndsEarly(run)
  {
    if run != [] {
      FittingNeverEndsEarly(run[..|run| - 1]);
      EveryRunIsCounted(run);
    }
  }

  /** Without a new begin, the number of open saves never grows. */
  lemma {:induction false} OpenSavesOnlyEnd(run: seq<Input>, more: seq<Input>)
    requires forall i | 0 <= i < |more| :: more[i].event != BeginSave
    ensures Outstanding(run + more) <= Outstanding(run)
    decreases |more|
  {
    if more == [] {
      assert run + more == run;
    } else {
      var fewer := more[..|more| - 1];
      OpenSavesOnlyEnd(run, fewer);
      assert (run + more)[..|run + more| - 1] == run + fewer;
      EveryRunIsCounted(run + fewer);
    }
  }

  /** One step: a rejected input changes nothing; leaving Active needs the acknowledgement; and Stopped
      and Failed are final. */
  lemma StepLaws(g: Gate, input: Input)
    ensures Objection(g.state, input) != NoDiagnostic ==> Next(g, input) == g
    ensures g.state == Active && Next(g, input).state != Active ==> input.acknowledged
    ensures g.state in {Stopped, Failed} ==> Objection(g.state, input) != NoDiagnostic
  {
  }

  lemma {:induction false} FinalStatesStay(run: seq<Input>, more: seq<Input>)
    requires After(run).state in {Stopped, Failed}
    ensures After(run + more) == After(run)
    decreases |more|
  {
    if more == [] {
      assert run + more == run;
    } else {
      var fewer := more[..|more| - 1];
      FinalStatesStay(run, fewer);
      assert (run + more)[..|run + more| - 1] == run + fewer;
      StepLaws(After(run), more[|more| - 1]);
    }
  }

  /** The bound is exact: a nested begin keeps the depth equal to the outstanding saves precisely when
      the counter was not already at its maximum. */
  lemma NestedBeginIsExactIff(run: seq<Input>, acknowledged: bool)
    requires NestingFits(run) && After(run).state == SaveInProgress
    ensures var longer := run + [Input(BeginSave, acknowledged)];
            After(longer).saveDepth == Outstanding(longer) <==> After(run).saveDepth != WORD_LIMIT - 1
  {
    EveryRunIsCounted(run);
    OneMore(run, Input(BeginSave, acknowledged));
    hide After, Count, NestingFits;
  }

  /** `n` nested begins in a save that starts from an activated gate. */
  function NestedBegins(n: nat): (run: seq<Input>) {
    if n == 0 then [Input(Activate, false)] else NestedBegins(n - 1) + [Input(BeginSave, true)]
  }

  lemma OneMoreBegin(n: nat)
    ensures var g, begin := Gate(if n == 0 then Active else SaveInProgress, 1, n % WORD_LIMIT), Input(BeginSave, true);
            && Next(g, begin) == Gate(SaveInProgress, 1, (n + 1) % WORD_LIMIT)
            && Tick(Tally(1, n, 0), g.state, SaveInProgress, begin) == Tally(1, n + 1, 0)
  {
    IncrementIsModular(n);
  }

  lemma LastOutcome(n: nat)
    ensures var g, outcome := Gate(SaveInProgress, 1, 1), Input(SaveSucceeded, false);
            && Next(g, outcome) == Gate(ReapplyPending, 1, 0)
            && Tick(Tally(1, n, 0), SaveInProgress, ReapplyPending, outcome) == Tally(1, n, 1)
  {
  }

  /** After `n` nested begins. */
  predicate Nests(run: seq<Input>, n: nat) {
    && After(run) == Gate(if n == 0 then Active else SaveInProgress, 1, n % WORD_LIMIT)
    && Count(run) == Tally(1, n, 0)
  }

  lemma ActivatedNests()
    ensures Nests([Input(Activate, false)], 0)
  {
    var run := [Input(Activate, false)];
    assert run[..0] == [];
    assert After([]) == INITIAL;
  }

  lemma OneMoreNests(run: seq<Input>, n: nat)
    requires Nests(run, n)
    ensures Nests(run + [Input(BeginSave, true)], n + 1)
  {
    hide After, Count, Next, Tick;
    OneMore(run, Input(BeginSave, true));
    OneMoreBegin(n);
  }

  lemma {:induction false} NestedBeginsCount(n: nat)
    ensures Nests(NestedBegins(n), n)
  {
    hide Nests;
    if n == 0 {
      ActivatedNests();
    } else {
      NestedBeginsCount(n - 1);
      OneMoreNests(NestedBegins(n - 1), n - 1);
    }
  }

  lemma EndedEarly(run: seq<Input>, outcome: Input)
    requires After(run).state == SaveInProgress && IsOutcome(outcome.event)
    requires After(run + [outcome]).state == ReapplyPending && Outstanding(run + [outcome]) > 0
    ensures EndsEarly(run + [outcome])
  {
    assert (run + [outcome])[..|run|] == run;
  }

  /** The bound is needed: with 2^64 + 1 saves open the counter has wrapped, and a single outcome ends
      the save although 2^64 saves are still outstanding. */
  lemma WrappedDepthEndsSaveEarly(nested: nat)
    requires nested == WORD_LIMIT + 1
    ensures var run := NestedBegins(nested) + [Input(SaveSucceeded, false)];
            After(run).state == ReapplyPending && Outstanding(run) == WORD_LIMIT && EndsEarly(run)
  {
    hide After, Count, NestedBegins, Next, Tick, EndsEarly;
    NestedBeginsCount(nested);
    var begun, outcome := NestedBegins(nested), Input(SaveSucceeded, false);
    OneMore(begun, outcome);
    LastOutcome(nested);
    EndedEarly(begun, outcome);
  }

  // ---- Where each event leads ----

  /** The diagnostic of every input in every state. */
  lemma ObjectionCodes(state: State, input: Input)
    ensures Objection(state, input) == BaselineRestorationNotAcknowledged <==>
              state == Active && !input.acknowledged && input.event in {BeginSave, RequestShutdown, Interrupt}
    ensures Objection(state, input) == InvalidEventForState <==>
              match state
              case InactiveBootstrap => input.event !in {Activate, RequestShutdown, Interrupt}
              case Active => input.event !in {BeginSave, RequestShutdown, Interrupt}
              case SaveInProgress => input.event in {Activate, ReapplyAtVerifiedBarrier, CompleteShutdown}
              case ReapplyPending => input.event !in {ReapplyAtVerifiedBarrier, RequestShutdown, Interrupt}
              case QuiesceRequested | BaselineRestored => input.event !in {RequestShutdown, Interrupt}
              case Shutdown => input.event != CompleteShutdown
              case Stopped | Failed => true
  {
  }

  /** The gate took the input at `k`. */
  predicate AcceptedAt(run: seq<Input>, k: nat)
    requires k < |run|
  {
    Objection(After(run[..k]).state, run[k]) == NoDiagnostic
  }

  /** The last input the gate took is the one at `k`. */
  predicate LastAccepted(run: seq<Input>, k: nat) {
    k < |run| && AcceptedAt(run, k) && forall j | k < j < |run| :: !AcceptedAt(run, j)
  }

  predicate NothingAccepted(run: seq<Input>) {
    forall k | 0 <= k < |run| :: !AcceptedAt(run, k)
  }

  predicate SomeAccepted(run: seq<Input>, event: Event) {
    exists k | 0 <= k < |run| :: AcceptedAt(run, k) && run[k].event == event
  }

  predicate LastIs(run: seq<Input>, events: set<Event>) {
    exists k | 0 <= k < |run| :: LastAccepted(run, k) && run[k].event in events
  }

  lemma EarlierAccepted(run: seq<Input>, earlier: seq<Input>)
    requires run != [] && earlier == run[..|run| - 1]
    ensures forall k | 0 <= k < |earlier| :: AcceptedAt(run, k) <==> AcceptedAt(earlier, k)
  {
    hide Objection, After;
    forall k | 0 <= k < |earlier|
      ensures AcceptedAt(run, k) <==> AcceptedAt(earlier, k)
    {
      assert earlier[..k] == run[..k];
    }
  }

  /** The last accepted input alone decides the state, except that an outcome ends the save only at depth zero;
      and every accepted event leaves its own state behind. */
  lemma {:induction false} LastAcceptedDecides(run: seq<Input>, k: nat)
    requires LastAccepted(run, k)
    ensures match run[k].event
            case Activate | ReapplyAtVerifiedBarrier => After(run).state == Active
            case BeginSave => After(run).state == SaveInProgress
            case SaveSucceeded | SaveFailed | SaveCancelled =>
              After(run).state == if After(run).saveDepth == 0 then ReapplyPending else SaveInProgress
            case RequestShutdown => After(run).state == Shutdown
            case CompleteShutdown => After(run).state == Stopped
            case Interrupt => After(run).state == Failed
    decreases |run|
  {
    if k < |run| - 1 {
      EarlierAccepted(run, run[..|run| - 1]);
      LastAcceptedDecides(run[..|run| - 1], k);
      assert !AcceptedAt(run, |run| - 1);
    }
  }

  lemma {:induction false} NothingAcceptedIsInitial(run: seq<Input>)
    requires NothingAccepted(run)
    ensures After(run) == INITIAL
  {
    if run != [] {
      EarlierAccepted(run, run[..|run| - 1]);
      NothingAcceptedIsInitial(run[..|run| - 1]);
      assert !AcceptedAt(run, |run| - 1);
    }
  }

  lemma {:induction false} SomeLast(run: seq<Input>)
    ensures NothingAccepted(run) || exists k: nat :: LastAccepted(run, k)
  {
    hide AcceptedAt;
    if run != [] {
      var earlier := run[..|run| - 1];
      EarlierAccepted(run, earlier);
      SomeLast(earlier);
      if AcceptedAt(run, |run| - 1) {
        assert LastAccepted(run, |run| - 1);
      } else if k :| LastAccepted(earlier, k) {
        assert LastAccepted(run, k);
      }
    }
  }

  /** Over every run, what the state says about the inputs accepted so far. */
  lemma {:induction false} StateTellsHistory(run: seq<Input>)
    ensures After(run).state == InactiveBootstrap <==> NothingAccepted(run)
    ensures After(run).state == Active <==> LastIs(run, {Activate, ReapplyAtVerifiedBarrier})
    ensures After(run).state == Shutdown <==> LastIs(run, {RequestShutdown})
    ensures After(run).state == Stopped <==> SomeAccepted(run, CompleteShutdown)
    ensures After(run).state == Failed <==> SomeAccepted(run, Interrupt)
    ensures After(run).state == ReapplyPending <==>
              LastIs(run, {SaveSucceeded, SaveFailed, SaveCancelled}) && After(run).saveDepth == 0
  {
    hide AcceptedAt, After;
    SomeLast(run);
    if NothingAccepted(run) {
      NothingAcceptedIsInitial(run);
    } else {
      var k :| LastAccepted(run, k);
      LastAcceptedDecides(run, k);
      FinalAccepted(run);
    }
  }

  /** Completion and interruption are accepted last or not at all. */
  lemma {:induction false} FinalAccepted(run: seq<Input>)
    ensures forall k | 0 <= k < |run| && AcceptedAt(run, k) && run[k].event in {CompleteShutdown, Interrupt} :: LastAccepted(run, k)
  {
    hide After, Objection, Next;
    if run != [] {
      var earlier := run[..|run| - 1];
      EarlierAccepted(run, earlier);
      FinalAccepted(earlier);
      forall k | 0 <= k < |run| - 1 && AcceptedAt(run, k) && run[k].event in {CompleteShutdown, Interrupt}
        ensures LastAccepted(run, k)
      {
        LastAcceptedDecides(earlier, k);
        ObjectionCodes(After(earlier).state, run[|run| - 1]);
        assert !AcceptedAt(run, |run| - 1);
      }
    }
  }

  /** Which inputs the gate takes, told by the history alone: activation once and first; reapplication after the
      outcome that ended the save; completion after the shutdown request; shutdown and interruption unless one of
      them came before; and whatever leaves Active only with baseline restoration acknowledged. */
  lemma AcceptedIff(run: seq<Input>, input: Input)
    ensures var taken := AcceptedAt(run + [input], |run|);
            var product := LastIs(run, {Activate, ReapplyAtVerifiedBarrier});
            match input.event
            case Activate => taken <==> NothingAccepted(run)
            case BeginSave => taken <==> (product && input.acknowledged) || Saving(run)
            case SaveSucceeded | SaveFailed | SaveCancelled => taken <==> Saving(run)
            case ReapplyAtVerifiedBarrier =>
              taken <==> LastIs(run, {SaveSucceeded, SaveFailed, SaveCancelled}) && After(run).saveDepth == 0
            case CompleteShutdown => taken <==> LastIs(run, {RequestShutdown})
            case RequestShutdown | Interrupt =>
              taken <==> (product ==> input.acknowledged) && !LastIs(run, {RequestShutdown, CompleteShutdown, Interrupt})
  {
    hide After, LastAccepted, NothingAccepted, SomeAccepted, Objection;
    assert (run + [input])[..|run|] == run;
    ObjectionCodes(After(run).state, input);
    StateTellsHistory(run);
    RestsIn(run);
  }

  predicate Saving(run: seq<Input>) {
    LastIs(run, {BeginSave}) || (LastIs(run, {SaveSucceeded, SaveFailed, SaveCancelled}) && After(run).saveDepth != 0)
  }

  lemma RestsIn(run: seq<Input>)
    ensures After(run).state == SaveInProgress <==> Saving(run)
    ensures After(run).state in {Shutdown, Stopped, Failed} <==> LastIs(run, {RequestShutdown, CompleteShutdown, Interrupt})
    ensures After(run).state !in {QuiesceRequested, BaselineRestored}
  {
    hide AcceptedAt, After;
    SomeLast(run);
    if NothingAccepted(run) {
      NothingAcceptedIsInitial(run);
    } else {
      var k :| LastAccepted(run, k);
      LastAcceptedDecides(run, k);
    }
  }
}
