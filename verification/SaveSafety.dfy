/** The lifecycle gate and both journals together: memory is mutated only while the gate is Active, and no
    open save sees mutated memory as long as the gate's depth has not ended a save early. The static patches
    and the object field are reached through separate adapters, so each journal has its own memory. */
module SaveSafety {
  import opened Words
  import opened Memory
  import opened EngineProperties
  import PatchEntries
  import PatchJournal
  import PatchRuns
  import ObjectPropertyJournal
  import ObjectRuns
  import Lifecycle = LifecycleGate

  /** A gate, the two journals with their memories, and whether the last action of each restored its baseline. */
  datatype System = System(
    gate: Lifecycle.Gate, patches: PatchJournal.Snapshot, property: ObjectPropertyJournal.Snapshot,
    patchesRestored: bool, propertyRestored: bool)

  /** A gate input, or a journal call as carried out. */
  datatype Action =
    | GateEvent(input: Lifecycle.Input)
    | PatchCall(patchEvent: PatchRuns.Event)
    | ObjectCall(objectEvent: ObjectRuns.Event)

  predicate PatchesRestored(call: PatchRuns.Call, code: PatchJournal.PatchCode) {
    call.RollbackCall? && (code == PatchJournal.RolledBack || code == PatchJournal.AlreadyPristine)
  }

  predicate PropertyRestored(call: ObjectRuns.Call, code: ObjectPropertyJournal.ObjectCode) {
    call.RollbackCall? && (code == ObjectPropertyJournal.RolledBack || code == ObjectPropertyJournal.AlreadyPristine)
  }

  /** The integrator's side of the boundary: an apply is given the gate's current permission, and restoration
      is acknowledged only while the last action of each journal restored its baseline. */
  predicate Disciplined(s: System, a: Action) {
    var active := s.gate.state == Lifecycle.Active;
    match a
    case GateEvent(input) => input.acknowledged ==> s.patchesRestored && s.propertyRestored
    case PatchCall(e) => e.call.ApplyCall? ==> e.call.rq.prerequisites.lifecyclePermitted == active
    case ObjectCall(e) => e.call.ApplyCall? ==> e.call.rq.prerequisites.lifecyclePermitted == active
  }

  ghost predicate Step(rules: FloatRules, s: System, a: Action) {
    && Disciplined(s, a)
    && match a
       case GateEvent(_) => true
       case PatchCall(e) => PatchRuns.Step(s.patches, e)
       case ObjectCall(e) => ObjectRuns.Step(rules, s.property, e)
  }

  function Do(s: System, a: Action): System {
    match a
    case GateEvent(input) => s.(gate := Lifecycle.Next(s.gate, input))
    case PatchCall(e) => s.(patches := e.after, patchesRestored := PatchesRestored(e.call, e.result.code))
    case ObjectCall(e) => s.(property := e.after, propertyRestored := PropertyRestored(e.call, e.result.code))
  }

  function After(start: System, run: seq<Action>): System {
    if run == [] then start else Do(After(start, run[..|run| - 1]), run[|run| - 1])
  }

  ghost predicate IsRun(rules: FloatRules, start: System, run: seq<Action>) {
    run != [] ==>
      var earlier := run[..|run| - 1];
      IsRun(rules, start, earlier) && Step(rules, After(start, earlier), run[|run| - 1])
  }

  /** What the gate was told during a run. */
  function Inputs(run: seq<Action>): seq<Lifecycle.Input> {
    if run == [] then []
    else
      Inputs(run[..|run| - 1])
      + match run[|run| - 1] {
          case GateEvent(input) => [input]
          case _ => []
        }
  }

  /** A new gate and two new journals on any memory. */
  ghost predicate Fresh(s: System) {
    && s.gate == Lifecycle.INITIAL && !s.patchesRestored && !s.propertyRestored
    && s.patches == PatchJournal.Snapshot(PatchJournal.Pristine, 0, 0, [], s.patches.bytes, s.patches.writes)
    && s.property == ObjectPropertyJournal.Snapshot(ObjectPropertyJournal.Pristine, None, s.property.bytes, s.property.writes)
  }

  /** Both memories are what they were at the start. */
  predicate AtBaseline(start: System, s: System) {
    s.patches.bytes == start.patches.bytes && s.property.bytes == start.property.bytes
  }

  predicate BothPristine(s: System) {
    s.patches.state == PatchJournal.Pristine && s.property.state == ObjectPropertyJournal.Pristine
  }

  /** What keeps saves safe. */
  ghost predicate Safe(rules: FloatRules, start: System, s: System) {
    && PatchRuns.Truthful(start.patches.bytes, s.patches)
    && ObjectRuns.Truthful(rules, start.property.bytes, s.property)
    && (s.patchesRestored ==> s.patches.state == PatchJournal.Pristine)
    && (s.propertyRestored ==> s.property.state == ObjectPropertyJournal.Pristine)
    && (s.gate.state != Lifecycle.Active ==> BothPristine(s))
  }

  lemma StepKeepsSafe(rules: FloatRules, start: System, s: System, a: Action)
    requires Safe(rules, start, s) && Step(rules, s, a)
    ensures Safe(rules, start, Do(s, a))
  {
    match a
    case GateEvent(input) => Lifecycle.StepLaws(s.gate, input);
    case PatchCall(e) => PatchCallKeepsSafe(rules, start, s, e);
    case ObjectCall(e) => ObjectCallKeepsSafe(rules, start, s, e);
  }

  lemma PatchCallKeepsSafe(rules: FloatRules, start: System, s: System, e: PatchRuns.Event)
    requires Safe(rules, start, s) && Step(rules, s, PatchCall(e))
    ensures Safe(rules, start, Do(s, PatchCall(e)))
  {
    match e.call
    case ApplyCall(rq) =>
      PatchRuns.ApplyKeepsTruth(start.patches.bytes, s.patches, rq, e.regions, e.refused, e.after, e.result);
      hide PatchRuns.Truthful, ObjectRuns.Truthful;
    case RollbackCall =>
      PatchRuns.RollbackKeepsTruth(start.patches.bytes, s.patches, e.regions, e.refused, e.after, e.result);
      hide PatchRuns.Truthful, ObjectRuns.Truthful;
  }

  lemma ObjectCallKeepsSafe(rules: FloatRules, start: System, s: System, e: ObjectRuns.Event)
    requires Safe(rules, start, s) && Step(rules, s, ObjectCall(e))
    ensures Safe(rules, start, Do(s, ObjectCall(e)))
  {
    match e.call
    case ApplyCall(rq) =>
      ObjectRuns.ApplyKeepsTruth(rules, start.property.bytes, s.property, rq, e.env, e.refused, e.after, e.result);
      if !rq.prerequisites.lifecyclePermitted {
        DeniedApplyChangesNothing(rules, s.property, rq, e.env, e.refused, e.after, e.result);
      }
      hide PatchRuns.Truthful, ObjectRuns.Truthful, ObjectPropertyJournal.ApplyOutcome;
    case RollbackCall =>
      ObjectRuns.RollbackKeepsTruth(rules, start.property.bytes, s.property, e.env, e.refused, e.after, e.result);
      RollbackEnds(s.property, e.env, e.refused, e.after, e.result);
      hide PatchRuns.Truthful, ObjectRuns.Truthful, ObjectPropertyJournal.RollbackOutcome;
  }

  lemma DeniedApplyChangesNothing(rules: FloatRules, s: ObjectPropertyJournal.Snapshot, rq: ObjectPropertyJournal.ApplyRequest,
                                  env: ObjectPropertyJournal.Environment, refused: bool, t: ObjectPropertyJournal.Snapshot,
                                  r: ObjectPropertyJournal.ObjectResult)
    requires ObjectPropertyJournal.ApplyOutcome(rules, s, rq, env, refused, t, r) && !rq.prerequisites.lifecyclePermitted
    ensures t == s
  {
  }

  /** A rollback that says it restored leaves a pristine journal, and a pristine journal is left alone. */
  lemma RollbackEnds(s: ObjectPropertyJournal.Snapshot, env: ObjectPropertyJournal.Environment, refused: bool,
                     t: ObjectPropertyJournal.Snapshot, r: ObjectPropertyJournal.ObjectResult)
    requires ObjectPropertyJournal.RollbackOutcome(s, env, refused, t, r)
    ensures PropertyRestored(ObjectRuns.RollbackCall, r.code) ==> t.state == ObjectPropertyJournal.Pristine
    ensures s.state == ObjectPropertyJournal.Pristine ==> t == s
  {
  }

  lemma {:induction false} EveryRunIsSafe(rules: FloatRules, start: System, run: seq<Action>)
    requires Fresh(start) && IsRun(rules, start, run)
    ensures Safe(rules, start, After(start, run))
  {
    if run != [] {
      hide Safe, Step, Do;
      var earlier := run[..|run| - 1];
      EveryRunIsSafe(rules, start, earlier);
      StepKeepsSafe(rules, start, After(start, earlier), run[|run| - 1]);
    }
  }

  /** However the adapters misbehave and whatever the gate is told: whenever the gate is not Active, both
      journals are pristine and all memory is the original baseline. */
  lemma MutatedOnlyWhileActive(rules: FloatRules, start: System, run: seq<Action>)
    requires Fresh(start) && IsRun(rules, start, run)
    ensures After(start, run).gate.state != Lifecycle.Active ==>
              BothPristine(After(start, run)) && AtBaseline(start, After(start, run))
  {
    EveryRunIsSafe(rules, start, run);
  }

  // ---- Open saves ----

  lemma {:induction false} GateFollowsInputs(start: System, run: seq<Action>)
    requires start.gate == Lifecycle.INITIAL
    ensures After(start, run).gate == Lifecycle.After(Inputs(run))
  {
    if run != [] {
      var earlier := run[..|run| - 1];
      GateFollowsInputs(start, earlier);
      if run[|run| - 1].GateEvent? {
        assert Inputs(run)[..|Inputs(run)| - 1] == Inputs(earlier);
      } else {
        assert Inputs(run) == Inputs(earlier);
      }
    }
  }

  /** No save sees mutated memory while it is open: for any run in which no save has ended early, in
      particular any in which fewer than 2^64 saves are ever open at once. `Outstanding` counts the saves of
      the current episode; `Unfinished` also those that a shutdown or an interruption left without an outcome,
      which see the baseline forever. */
  lemma NoSaveSeesMutatedMemory(rules: FloatRules, start: System, run: seq<Action>)
    requires Fresh(start) && IsRun(rules, start, run)
    requires Lifecycle.NeverEndsEarly(Inputs(run)) || Lifecycle.NestingFits(Inputs(run))
    ensures Lifecycle.Outstanding(Inputs(run)) > 0 ==> AtBaseline(start, After(start, run))
    ensures Lifecycle.Unfinished(Inputs(run)) > 0 ==> AtBaseline(start, After(start, run))
  {
    if Lifecycle.NestingFits(Inputs(run)) {
      Lifecycle.FittingNeverEndsEarly(Inputs(run));
    }
    Lifecycle.OpenIffInProgress(Inputs(run));
    Lifecycle.NoneForgotten(Inputs(run));
    GateFollowsInputs(start, run);
    MutatedOnlyWhileActive(rules, start, run);
  }

  /** A request that an apply on the start's memory would carry out. */
  predicate Applicable(start: System, rq: PatchJournal.ApplyRequest, regions: RegionMap) {
    && PatchJournal.GateFault(PatchJournal.Pristine, rq) == None
    && PatchJournal.PreflightFault(rq.identity, rq.patches, regions, start.patches.bytes) == None
  }

  lemma Extend(rules: FloatRules, start: System, run: seq<Action>, a: Action)
    requires IsRun(rules, start, run) && Step(rules, After(start, run), a)
    ensures IsRun(rules, start, run + [a]) && After(start, run + [a]) == Do(After(start, run), a)
    ensures Inputs(run + [a]) == Inputs(run) + if a.GateEvent? then [a.input] else []
  {
    assert (run + [a])[..|run|] == run;
    assert Inputs(run) + [] == Inputs(run);
  }

  const REAPPLY := GateEvent(Lifecycle.Input(Lifecycle.ReapplyAtVerifiedBarrier, false))

  /** What an integrator does next when a save has ended: re-enter Active and apply again. */
  function Resume(start: System, s: System, rq: PatchJournal.ApplyRequest, regions: RegionMap): seq<Action> {
    [REAPPLY, PatchCall(PatchRuns.Success(s.patches, rq, regions))]
  }

  lemma ResumeMutates(rules: FloatRules, start: System, run: seq<Action>, rq: PatchJournal.ApplyRequest, regions: RegionMap)
    requires Fresh(start) && IsRun(rules, start, run) && Applicable(start, rq, regions)
    requires After(start, run).gate.state == Lifecycle.ReapplyPending
    ensures var longer := run + Resume(start, After(start, run), rq, regions);
            && IsRun(rules, start, longer) && !AtBaseline(start, After(start, longer))
            && Inputs(longer) == Inputs(run) + [REAPPLY.input]
  {
    hide PatchRuns.Step, PatchRuns.Success, PatchEntries.Overlaid, Step, Do, After, IsRun, Inputs, Fresh;
    var s := After(start, run);
    MutatedOnlyWhileActive(rules, start, run);
    PatchRuns.SuccessIsStep(s.patches, rq, regions);
    PatchRuns.SuccessChangesMemory(s.patches, rq, regions);
    hide Applicable, PatchJournal.GateFault, PatchJournal.PreflightFault;
    var e := PatchRuns.Success(s.patches, rq, regions);
    ResumeSteps(rules, s, e);
    Extend(rules, start, run, REAPPLY);
    Extend(rules, start, run + [REAPPLY], PatchCall(e));
    assert run + Resume(start, s, rq, regions) == run + [REAPPLY] + [PatchCall(e)];
  }

  lemma ResumeSteps(rules: FloatRules, s: System, e: PatchRuns.Event)
    requires s.gate.state == Lifecycle.ReapplyPending && PatchRuns.Step(s.patches, e)
    requires e.call.ApplyCall? && e.call.rq.prerequisites.lifecyclePermitted
    ensures Step(rules, s, REAPPLY) && Step(rules, Do(s, REAPPLY), PatchCall(e))
    ensures Do(Do(s, REAPPLY), PatchCall(e)).patches == e.after
  {
    hide PatchRuns.Step;
  }

  /** No new save begins. */
  predicate NoBegin(run: seq<Action>) {
    forall i | 0 <= i < |run| && run[i].GateEvent? :: run[i].input.event != Lifecycle.BeginSave
  }

  lemma {:induction false} InputsAppend(run: seq<Action>, more: seq<Action>)
    ensures Inputs(run + more) == Inputs(run) + Inputs(more)
    decreases |more|
  {
    if more == [] {
      assert run + more == run;
      assert Inputs(run) + [] == Inputs(run);
    } else {
      var fewer := more[..|more| - 1];
      InputsAppend(run, fewer);
      assert (run + more)[..|run + more| - 1] == run + fewer;
      assert (run + more)[|run + more| - 1] == more[|more| - 1];
    }
  }

  lemma {:induction false} NoBeginInputs(more: seq<Action>)
    requires NoBegin(more)
    ensures forall i | 0 <= i < |Inputs(more)| :: Inputs(more)[i].event != Lifecycle.BeginSave
  {
    if more != [] {
      NoBeginInputs(more[..|more| - 1]);
      assert more[|more| - 1].GateEvent? ==> more[|more| - 1].input.event != Lifecycle.BeginSave;
    }
  }

  lemma OpenNeverGrows(run: seq<Action>, more: seq<Action>)
    requires NoBegin(more)
    ensures Lifecycle.Outstanding(Inputs(run + more)) <= Lifecycle.Outstanding(Inputs(run))
  {
    InputsAppend(run, more);
    NoBeginInputs(more);
    Lifecycle.OpenSavesOnlyEnd(Inputs(run), Inputs(more));
  }

  /** Some disciplined continuation, without a new save, mutates memory while a save is open. */
  ghost predicate Exposed(rules: FloatRules, start: System, run: seq<Action>) {
    exists more :: Exposes(rules, start, run, more)
  }

  ghost predicate Exposes(rules: FloatRules, start: System, run: seq<Action>, more: seq<Action>) {
    && NoBegin(more) && IsRun(rules, start, run + more)
    && Lifecycle.Outstanding(Inputs(run + more)) > 0 && !AtBaseline(start, After(start, run + more))
  }

  lemma ResumeBeginsNothing(start: System, s: System, rq: PatchJournal.ApplyRequest, regions: RegionMap)
    ensures NoBegin(Resume(start, s, rq, regions))
  {
  }

  lemma ExposedWhenOpen(rules: FloatRules, start: System, run: seq<Action>, rq: PatchJournal.ApplyRequest, regions: RegionMap)
    requires Fresh(start) && IsRun(rules, start, run) && Applicable(start, rq, regions)
    requires After(start, run).gate.state == Lifecycle.ReapplyPending && Lifecycle.Outstanding(Inputs(run)) > 0
    ensures Exposed(rules, start, run)
  {
    hide IsRun, After, AtBaseline, Applicable, Inputs, NoBegin, Resume, Lifecycle.Outstanding;
    ReapplyKeepsOpen(start, run);
    ResumeMutates(rules, start, run, rq, regions);
    ResumeBeginsNothing(start, After(start, run), rq, regions);
    assert Exposes(rules, start, run, Resume(start, After(start, run), rq, regions));
  }

  /** Where a save has just ended, and mutation has something to apply: an open save can come to see mutated
      memory exactly when one is still open, which `EndsEarlyIff` in LifecycleGate says happens exactly when a
      positive multiple of 2^64 is left. */
  lemma ExposedIff(rules: FloatRules, start: System, run: seq<Action>, rq: PatchJournal.ApplyRequest, regions: RegionMap)
    requires Fresh(start) && IsRun(rules, start, run) && Applicable(start, rq, regions)
    requires After(start, run).gate.state == Lifecycle.ReapplyPending
    ensures Exposed(rules, start, run) <==> Lifecycle.Outstanding(Inputs(run)) > 0
  {
    if Lifecycle.Outstanding(Inputs(run)) > 0 {
      ExposedWhenOpen(rules, start, run, rq, regions);
    }
    hide IsRun, After, Fresh, AtBaseline, Applicable, Inputs, NoBegin, Lifecycle.Outstanding;
    forall more | NoBegin(more)
      ensures Lifecycle.Outstanding(Inputs(run + more)) <= Lifecycle.Outstanding(Inputs(run))
    {
      OpenNeverGrows(run, more);
    }
  }

  lemma ReapplyKeepsOpen(start: System, run: seq<Action>)
    requires start.gate == Lifecycle.INITIAL && After(start, run).gate.state == Lifecycle.ReapplyPending
    ensures Lifecycle.Outstanding(Inputs(run) + [REAPPLY.input]) == Lifecycle.Outstanding(Inputs(run))
  {
    GateFollowsInputs(start, run);
    assert (Inputs(run) + [REAPPLY.input])[..|Inputs(run)|] == Inputs(run);
  }

  // ---- Recovery ----

  predicate NeedsRecovery(s: System) {
    s.patches.state == PatchJournal.RecoveryRequired || s.property.state == ObjectPropertyJournal.RecoveryRequired
  }

  /** A journal that needs recovery is as it was. */
  predicate Stuck(s: System, later: System) {
    && (s.patches.state == PatchJournal.RecoveryRequired ==> later.patches == s.patches)
    && (s.property.state == ObjectPropertyJournal.RecoveryRequired ==> later.property == s.property)
  }

  lemma RecoveryStepPins(rules: FloatRules, start: System, s: System, a: Action)
    requires Safe(rules, start, s) && Step(rules, s, a) && NeedsRecovery(s)
    ensures Stuck(s, Do(s, a)) && Do(s, a).gate.state == Lifecycle.Active
  {
    match a
    case GateEvent(input) => Lifecycle.StepLaws(s.gate, input);
    case PatchCall(e) => if s.patches.state == PatchJournal.RecoveryRequired { PatchRuns.RecoveryStep(s.patches, e); }
    case ObjectCall(e) =>
      if s.property.state == ObjectPropertyJournal.RecoveryRequired { ObjectRuns.RecoveryStep(rules, s.property, e); }
  }

  /** The price of safety: a disciplined integrator one of whose journals needs recovery can never leave Active
      again; no save begins, and neither shutdown nor interruption is accepted. */
  lemma {:induction false} RecoveryPinsTheGate(rules: FloatRules, start: System, run: seq<Action>, more: seq<Action>)
    requires Fresh(start) && IsRun(rules, start, run) && IsRun(rules, start, run + more)
    requires NeedsRecovery(After(start, run))
    ensures After(start, run + more).gate.state == Lifecycle.Active
    ensures Stuck(After(start, run), After(start, run + more))
    decreases |more|
  {
    if more == [] {
      assert run + more == run;
      MutatedOnlyWhileActive(rules, start, run);
    } else {
      hide Safe, Step, Do;
      var fewer := more[..|more| - 1];
      assert (run + more)[..|run + more| - 1] == run + fewer;
      RecoveryPinsTheGate(rules, start, run, fewer);
      EveryRunIsSafe(rules, start, run + fewer);
      RecoveryStepPins(rules, start, After(start, run + fewer), more[|more| - 1]);
    }
  }

  /** Losing the owner of the object while its property is applied: the rollback writes nothing, the mutated
      field stays, and from then on the gate can never be left. */
  lemma OwnerLossPinsTheGate(rules: FloatRules, start: System, run: seq<Action>, e: ObjectRuns.Event, more: seq<Action>)
    requires Fresh(start) && IsRun(rules, start, run) && IsRun(rules, start, run + [ObjectCall(e)])
    requires IsRun(rules, start, run + [ObjectCall(e)] + more)
    requires After(start, run).property.state == ObjectPropertyJournal.Applied && After(start, run).property.held.Some?
    requires e.call == ObjectRuns.RollbackCall
    requires ObjectPropertyJournal.RollbackObstacle(After(start, run).property.held.value, e.env)
             == Some(ObjectPropertyJournal.OwnerInvalidatedBeforeRollback)
    ensures var later := After(start, run + [ObjectCall(e)] + more);
            && later.gate.state == Lifecycle.Active
            && later.property.bytes == After(start, run).property.bytes && later.property.writes == After(start, run).property.writes
  {
    var s, longer := After(start, run), run + [ObjectCall(e)];
    assert longer[..|run|] == run;
    assert Step(rules, s, ObjectCall(e));
    assert After(start, longer) == Do(s, ObjectCall(e));
    assert e.after == s.property.(state := ObjectPropertyJournal.RecoveryRequired);
    RecoveryPinsTheGate(rules, start, longer, more);
  }

  // ---- Concrete runs ----

  const ACTIVATE := GateEvent(Lifecycle.Input(Lifecycle.Activate, false))

  /** A new system on the example's memory. */
  function ExampleSystem(): System {
    System(Lifecycle.INITIAL, PatchRuns.EXAMPLE_START, ObjectRuns.EXAMPLE_START, false, false)
  }

  /** Rollbacks of both journals while nothing has been applied, which entitle to acknowledge. */
  function ExampleRestore(): seq<Action> {
    var start := ExampleSystem();
    var env := ObjectPropertyJournal.Environment(PatchRuns.ExampleRegions(), _ => true, (_, _, _, _) => true, true, ObjectPropertyJournal.NoPhase);
    [PatchCall(PatchRuns.Event(PatchRuns.RollbackCall, PatchRuns.ExampleRegions(), false,
                               PatchJournal.PatchResult(PatchJournal.AlreadyPristine, PatchJournal.Pristine, false), start.patches)),
     ObjectCall(ObjectRuns.Event(ObjectRuns.RollbackCall, env, false,
                                 ObjectPropertyJournal.ObjectResult(ObjectPropertyJournal.AlreadyPristine, ObjectPropertyJournal.Pristine, false),
                                 start.property))]
  }

  /** Activate, restore, and begin `n` nested saves. */
  function Nested(n: nat): seq<Action> {
    if n == 0 then [ACTIVATE] + ExampleRestore()
    else Nested(n - 1) + [GateEvent(Lifecycle.Input(Lifecycle.BeginSave, true))]
  }

  lemma {:induction false} NestedIsRun(rules: FloatRules, n: nat)
    ensures IsRun(rules, ExampleSystem(), Nested(n)) && Inputs(Nested(n)) == Lifecycle.NestedBegins(n)
    ensures var s := After(ExampleSystem(), Nested(n)); s.patchesRestored && s.propertyRestored
  {
    var start := ExampleSystem();
    if n == 0 {
      var restore := ExampleRestore();
      Extend(rules, start, [], ACTIVATE);
      assert [] + [ACTIVATE] == [ACTIVATE];
      Extend(rules, start, [ACTIVATE], restore[0]);
      Extend(rules, start, [ACTIVATE] + [restore[0]], restore[1]);
      assert Nested(0) == [ACTIVATE] + [restore[0]] + [restore[1]];
    } else {
      NestedIsRun(rules, n - 1);
      var begin := GateEvent(Lifecycle.Input(Lifecycle.BeginSave, true));
      assert Nested(n) == Nested(n - 1) + [begin] && Lifecycle.NestedBegins(n) == Lifecycle.NestedBegins(n - 1) + [begin.input];
      hide IsRun, After, Inputs, Nested, Lifecycle.NestedBegins, Lifecycle.Next;
      Extend(rules, start, Nested(n - 1), begin);
    }
  }

  /** The bound is needed: past 2^64 nested saves, a disciplined run mutates memory with 2^64 saves open. */
  lemma OpenSaveSeesMutatedMemory(rules: FloatRules, nested: nat) returns (run: seq<Action>)
    requires nested == WORD_LIMIT + 1
    ensures Fresh(ExampleSystem()) && IsRun(rules, ExampleSystem(), run)
    ensures Lifecycle.Outstanding(Inputs(run)) == WORD_LIMIT && !AtBaseline(ExampleSystem(), After(ExampleSystem(), run))
  {
    var start, outcome := ExampleSystem(), GateEvent(Lifecycle.Input(Lifecycle.SaveSucceeded, false));
    NestedIsRun(rules, nested);
    hide Nested, IsRun, AtBaseline, Inputs, Lifecycle.Outstanding, Lifecycle.NestedBegins;
    Extend(rules, start, Nested(nested), outcome);
    var ended := Nested(nested) + [outcome];
    Lifecycle.WrappedDepthEndsSaveEarly(nested);
    GateFollowsInputs(start, ended);
    PatchRuns.ExamplePasses();
    hide After, Lifecycle.After;
    var rq, regions := PatchRuns.ExampleRequest(), PatchRuns.ExampleRegions();
    ResumeMutates(rules, start, ended, rq, regions);
    ReapplyKeepsOpen(start, ended);
    run := ended + Resume(start, After(start, ended), rq, regions);
  }

  /** The owner can be lost in a disciplined run of the classes: activate, apply, and roll back too late. */
  method OwnerLossIsReachable() returns (code: ObjectPropertyJournal.ObjectCode, ghost run: seq<Action>, ghost lost: ObjectRuns.Event)
    ensures code == ObjectPropertyJournal.OwnerInvalidatedBeforeRollback
    ensures Fresh(ExampleSystem()) && IsRun(ObjectRuns.ExampleRules(), ExampleSystem(), run)
    ensures IsRun(ObjectRuns.ExampleRules(), ExampleSystem(), run + [ObjectCall(lost)])
    ensures lost.call == ObjectRuns.RollbackCall && lost.result.code == code
    ensures var s := After(ExampleSystem(), run);
            && s.property.state == ObjectPropertyJournal.Applied && s.property.held.Some? && !AtBaseline(ExampleSystem(), s)
            && ObjectPropertyJournal.RollbackObstacle(s.property.held.value, lost.env) == Some(code)
  {
    ghost var rules, start := ObjectRuns.ExampleRules(), ExampleSystem();
    var _, second, applied, gone := ObjectRuns.LoseOwner();
    code, lost := second.code, gone;
    ObjectRuns.ExampleHolds(applied);
    hide ObjectRuns.Step, ObjectPropertyJournal.RollbackObstacle;
    run := [ACTIVATE] + [ObjectCall(applied)];
    Extend(rules, start, [], ACTIVATE);
    assert [] + [ACTIVATE] == [ACTIVATE];
    Extend(rules, start, [ACTIVATE], ObjectCall(applied));
    Extend(rules, start, run, ObjectCall(lost));
  }

  /** Recovery is reached by a disciplined run of the classes: activate, and apply through a spoiling adapter. */
  method RecoveryIsReachable(rules: FloatRules) returns (code: PatchJournal.PatchCode, ghost run: seq<Action>)
    ensures code == PatchJournal.ApplyFailedRecoveryRequired
    ensures Fresh(ExampleSystem()) && IsRun(rules, ExampleSystem(), run)
    ensures NeedsRecovery(After(ExampleSystem(), run)) && run[|run| - 1].PatchCall? && run[|run| - 1].patchEvent.result.code == code
  {
    ghost var start := ExampleSystem();
    var result, failure := PatchRuns.ApplyOnSpoilingAdapter();
    code := result.code;
    assert failure.after.state == PatchJournal.RecoveryRequired;
    hide PatchRuns.Step;
    run := [ACTIVATE] + [PatchCall(failure)];
    Extend(rules, start, [], ACTIVATE);
    assert [] + [ACTIVATE] == [ACTIVATE];
    Extend(rules, start, [ACTIVATE], PatchCall(failure));
  }

  // ---- The classes ----

  datatype Command = Tell(input: Lifecycle.Input) | Patch(patchCall: PatchRuns.Call) | Property(objectCall: ObjectRuns.Call)

  /** Everything the adapters answer while one command runs. */
  datatype Surroundings = Surroundings(regions: RegionMap, env: ObjectPropertyJournal.Environment)

  /** Carry out one command if the discipline allows it; `done` is what was done, if anything. */
  method Obey(gate: Lifecycle.LifecycleGate,
              patches: PatchJournal.Journal, memory: MemoryView,
              property: ObjectPropertyJournal.Journal, heap: ObjectPropertyJournal.ObjectMemoryView,
              command: Command, patchesBefore: bool, propertyBefore: bool)
    returns (patchesRestored: bool, propertyRestored: bool, ghost done: Option<Action>)
    requires patches.Valid() && property.Valid()
    modifies gate, patches, memory`bytes, memory`writes, property, property.baseline, property.replacement, heap`bytes, heap`writes
    ensures patches.Valid() && property.Valid()
    ensures var s := System(old(gate.View()), old(patches.View(memory)), old(property.View(heap)), patchesBefore, propertyBefore);
            var t := System(gate.View(), patches.View(memory), property.View(heap), patchesRestored, propertyRestored);
            match done
            case None => t == s
            case Some(a) => Step(property.rules, s, a) && t == Do(s, a)
  {
    hide PatchRuns.Step, ObjectRuns.Step, ObjectPropertyJournal.Consistent, PatchJournal.Consistent;
    patchesRestored, propertyRestored, done := patchesBefore, propertyBefore, None;
    match command {
      case Tell(input) =>
        if input.acknowledged ==> patchesBefore && propertyBefore {
          var _ := gate.Dispatch(input.event, input.acknowledged);
          done := Some(GateEvent(input));
        }
      case Patch(call) =>
        if call.ApplyCall? ==> call.rq.prerequisites.lifecyclePermitted == gate.ProductMutationPermitted() {
          var result, refused := PatchRuns.Perform(patches, memory, call);
          patchesRestored := PatchesRestored(call, result.code);
          done := Some(PatchCall(PatchRuns.Event(call, memory.regions, refused, result, patches.View(memory))));
        }
      case Property(call) =>
        if call.ApplyCall? ==> call.rq.prerequisites.lifecyclePermitted == gate.ProductMutationPermitted() {
          var result, refused := ObjectRuns.Perform(property, heap, call);
          propertyRestored := PropertyRestored(call, result.code);
          done := Some(ObjectCall(ObjectRuns.Event(call, heap.env, refused, result, property.View(heap))));
        }
    }
  }

  /** Drive a gate and both journals through any commands, enforcing the discipline: commands that break it
      are skipped. Every one of the classes' runs is a run of the system. */
  method Integrate(gate: Lifecycle.LifecycleGate,
                   patches: PatchJournal.Journal, memory: MemoryView,
                   property: ObjectPropertyJournal.Journal, heap: ObjectPropertyJournal.ObjectMemoryView,
                   commands: seq<Command>, surroundings: seq<Surroundings>) returns (ghost run: seq<Action>)
    requires |surroundings| == |commands|
    requires patches.Valid() && patches.state == PatchJournal.Pristine && gate.View() == Lifecycle.INITIAL
    requires property.Valid() && property.state == ObjectPropertyJournal.Pristine
    modifies gate, patches, memory, property, property.baseline, property.replacement, heap
    ensures patches.Valid() && property.Valid()
    ensures var start := System(Lifecycle.INITIAL, old(patches.View(memory)), old(property.View(heap)), false, false);
            && Fresh(start) && IsRun(property.rules, start, run)
            && var end := After(start, run);
               end.gate == gate.View() && end.patches == patches.View(memory) && end.property == property.View(heap)
    ensures gate.state != Lifecycle.Active ==> memory.bytes == old(memory.bytes) && heap.bytes == old(heap.bytes)
  {
    hide Safe, Step, Do, ObjectPropertyJournal.Consistent, PatchJournal.Consistent;
    ghost var start := System(Lifecycle.INITIAL, patches.View(memory), property.View(heap), false, false);
    StartIsFresh(patches.state, patches.moduleBase, patches.moduleSize, patches.entries, property.rules, property.state, property.HeldNow());
    var patchesRestored, propertyRestored := false, false;
    run := [];
    for i := 0 to |commands|
      invariant patches.Valid() && property.Valid()
      invariant IsRun(property.rules, start, run)
      invariant After(start, run) == System(gate.View(), patches.View(memory), property.View(heap), patchesRestored, propertyRestored)
    {
      memory.regions, heap.env := surroundings[i].regions, surroundings[i].env;
      ghost var done: Option<Action>;
      patchesRestored, propertyRestored, done := Obey(gate, patches, memory, property, heap, commands[i], patchesRestored, propertyRestored);
      if done.Some? {
        Extend(property.rules, start, run, done.value);
        run := run + [done.value];
      }
    }
    MutatedOnlyWhileActive(property.rules, start, run);
  }

  lemma StartIsFresh(state: PatchJournal.PatchState, moduleBase: Word, moduleSize: Word, entries: seq<PatchEntries.Entry>,
                     rules: FloatRules, objectState: ObjectPropertyJournal.ObjectState, held: Option<ObjectPropertyJournal.Held>)
    requires PatchJournal.Consistent(state, moduleBase, moduleSize, entries) && state == PatchJournal.Pristine
    requires ObjectPropertyJournal.Consistent(rules, objectState, held) && objectState == ObjectPropertyJournal.Pristine
    ensures moduleBase == 0 && moduleSize == 0 && entries == [] && held == None
  {
  }
}
