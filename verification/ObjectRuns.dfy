/** What every run of object-journal calls keeps, and what typed mutation through it means. */
module ObjectRuns {
  import opened Words
  import opened Memory
  import opened EngineBridge
  import opened EngineProperties
  import opened ObjectPropertyJournal

  datatype Call = ApplyCall(rq: ApplyRequest) | RollbackCall

  datatype Event = Event(call: Call, env: Environment, refused: bool, result: ObjectResult, after: Snapshot)

  ghost predicate Step(rules: FloatRules, s: Snapshot, e: Event) {
    match e.call
    case ApplyCall(rq) => ApplyOutcome(rules, s, rq, e.env, e.refused, e.after, e.result)
    case RollbackCall => RollbackOutcome(s, e.env, e.refused, e.after, e.result)
  }

  function After(start: Snapshot, run: seq<Event>): Snapshot {
    if run == [] then start else run[|run| - 1].after
  }

  ghost predicate IsRun(rules: FloatRules, start: Snapshot, run: seq<Event>) {
    run != [] ==>
      var earlier := run[..|run| - 1];
      IsRun(rules, start, earlier) && Step(rules, After(start, earlier), run[|run| - 1])
  }

  /** Memory is `baseline` everywhere outside the held field, where `baseline` shows the captured bytes. */
  ghost predicate OnlyFieldChanged(baseline: Contents, bytes: Contents, held: Held) {
    && Present(baseline, held.binding.field, held.baseline)
    && UnchangedOutsideRange(baseline, bytes, held.binding.field, |held.baseline|)
  }

  /** The journal's state tells the truth about memory, relative to the bytes before the first call. */
  ghost predicate Truthful(rules: FloatRules, baseline: Contents, s: Snapshot) {
    && Consistent(rules, s.state, s.held)
    && match s.state
       case Pristine => s.bytes == baseline
       case Applied =>
         && OnlyFieldChanged(baseline, s.bytes, s.held.value)
         && Present(s.bytes, s.held.value.binding.field, s.held.value.replacement)
       case RecoveryRequired => OnlyFieldChanged(baseline, s.bytes, s.held.value)
  }

  lemma ApplyKeepsTruth(rules: FloatRules, baseline: Contents, s: Snapshot, rq: ApplyRequest, env: Environment, refused: bool, t: Snapshot, r: ObjectResult)
    requires Truthful(rules, baseline, s)
    requires ApplyOutcome(rules, s, rq, env, refused, t, r)
    ensures Truthful(rules, baseline, t)
  {
    if t.state != s.state {
      assert FreshOutcome(rules, s, rq, t, r);
      var found := Collect(s.bytes, rq.binding.field, |rq.replacement|);
      assert WriteOutcome(s, rq, found, t, r);
      assert t.held.value.baseline == found;
    }
  }

  lemma RollbackKeepsTruth(rules: FloatRules, baseline: Contents, s: Snapshot, env: Environment, refused: bool, t: Snapshot, r: ObjectResult)
    requires Truthful(rules, baseline, s)
    requires RollbackOutcome(s, env, refused, t, r)
    ensures Truthful(rules, baseline, t)
  {
    if s.state == Applied && r.code == RolledBack {
      var held := s.held.value;
      RangeRestored(baseline, t.bytes, held.binding.field, held.baseline);
    }
  }

  /** Safety over whole runs, however the writer misreports and scribbles in the field: Pristine means
      memory is byte for byte what it was before the first call; Applied means the field shows exactly
      the replacement, the rest is the baseline, and the exact schema-valid original is still held; even
      when recovery is required nothing but the one field is in doubt. */
  lemma {:induction false} EveryRunIsTruthful(rules: FloatRules, start: Snapshot, run: seq<Event>)
    requires start.state == Pristine && start.held == None
    requires IsRun(rules, start, run)
    ensures Truthful(rules, start.bytes, After(start, run))
    ensures run != [] ==> run[|run| - 1].result.state == After(start, run).state
  {
    if run != [] {
      var earlier, e := run[..|run| - 1], run[|run| - 1];
      EveryRunIsTruthful(rules, start, earlier);
      match e.call
      case ApplyCall(rq) => ApplyKeepsTruth(rules, start.bytes, After(start, earlier), rq, e.env, e.refused, e.after, e.result);
      case RollbackCall => RollbackKeepsTruth(rules, start.bytes, After(start, earlier), e.env, e.refused, e.after, e.result);
    }
  }

  /** What each code alone says about the memory the call left. */
  ghost predicate CodeIsTrue(baseline: Contents, s: Snapshot, code: ObjectCode, t: Snapshot) {
    && (code in {ApplyFailedRolledBack, RolledBack, NoChange, AlreadyPristine} ==> t.bytes == baseline)
    && (code in {CodeApplied, AlreadyApplied, RollbackFailedStillApplied} ==>
          && t.state == Applied && t.held.Some?
          && Present(t.bytes, t.held.value.binding.field, t.held.value.replacement))
    && (code in {OwnerInvalidatedBeforeRollback, FieldSchemaMismatch} ==> t.bytes == s.bytes && t.writes == s.writes)
  }

  lemma FreshCodeIsTrue(rules: FloatRules, baseline: Contents, s: Snapshot, rq: ApplyRequest, t: Snapshot, r: ObjectResult)
    requires s.state == Pristine && s.bytes == baseline && r.state == t.state && FreshOutcome(rules, s, rq, t, r)
    ensures CodeIsTrue(baseline, s, r.code, t)
  {
    hide FieldValid;
  }

  lemma ApplyCodeIsTrue(rules: FloatRules, baseline: Contents, s: Snapshot, rq: ApplyRequest, env: Environment, refused: bool, t: Snapshot, r: ObjectResult)
    requires Truthful(rules, baseline, s) && ApplyOutcome(rules, s, rq, env, refused, t, r)
    ensures CodeIsTrue(baseline, s, r.code, t)
  {
    if Refusal(s.state, rq, env) == None && s.state == Pristine && !refused {
      FreshCodeIsTrue(rules, baseline, s, rq, t, r);
    }
    hide Refusal, FreshOutcome, OnlyFieldChanged;
  }

  lemma RollbackCodeIsTrue(rules: FloatRules, baseline: Contents, s: Snapshot, env: Environment, refused: bool, t: Snapshot, r: ObjectResult)
    requires Truthful(rules, baseline, s) && RollbackOutcome(s, env, refused, t, r)
    ensures CodeIsTrue(baseline, s, r.code, t)
  {
    RollbackKeepsTruth(rules, baseline, s, env, refused, t, r);
  }

  /** The codes tell the truth, for any call on a truthful journal. */
  lemma CodesTellTheTruth(rules: FloatRules, baseline: Contents, s: Snapshot, e: Event)
    requires Truthful(rules, baseline, s) && Step(rules, s, e)
    ensures CodeIsTrue(baseline, s, e.result.code, e.after)
  {
    match e.call
    case ApplyCall(rq) => ApplyCodeIsTrue(rules, baseline, s, rq, e.env, e.refused, e.after, e.result);
    case RollbackCall => RollbackCodeIsTrue(rules, baseline, s, e.env, e.refused, e.after, e.result);
  }

  lemma RecoveryStep(rules: FloatRules, s: Snapshot, e: Event)
    requires s.state == RecoveryRequired && Step(rules, s, e)
    ensures e.after == s
  {
  }

  /** Once recovery is required, nothing is ever written or changed again by the journal. */
  lemma {:induction false} RecoveryIsAbsorbing(rules: FloatRules, start: Snapshot, run: seq<Event>, more: seq<Event>)
    requires IsRun(rules, start, run + more)
    requires After(start, run).state == RecoveryRequired
    ensures After(start, run + more) == After(start, run)
    decreases |more|
  {
    if more == [] {
      assert run + more == run;
    } else {
      var fewer := more[..|more| - 1];
      assert (run + more)[..|run + more| - 1] == run + fewer;
      RecoveryIsAbsorbing(rules, start, run, fewer);
      RecoveryStep(rules, After(start, run + fewer), more[|more| - 1]);
    }
  }

  /** Rolling back leaves a field that decodes to a value its schema allows. */
  lemma RolledBackValueIsValid(rules: FloatRules, baseline: Contents, s: Snapshot, e: Event)
    requires Truthful(rules, baseline, s) && s.state == Applied
    requires e.call == RollbackCall && Step(rules, s, e) && e.result.code == RolledBack
    ensures FieldValid(rules, e.after.bytes, s.held.value.binding, |s.held.value.baseline|)
  {
    CollectIsPresent(e.after.bytes, s.held.value.binding.field, s.held.value.baseline);
  }

  /** One call of the class is one step. */
  method Perform(journal: Journal, memory: ObjectMemoryView, call: Call) returns (result: ObjectResult, ghost refused: bool)
    requires journal.Valid()
    modifies journal, journal.baseline, journal.replacement, memory`bytes, memory`writes
    ensures journal.Valid()
    ensures Step(journal.rules, old(journal.View(memory)), Event(call, memory.env, refused, result, journal.View(memory)))
    ensures memory.faithful ==>
              result.code == match call
                             case ApplyCall(rq) => FaithfulApplyCode(journal.rules, old(journal.View(memory)), rq, memory.env)
                             case RollbackCall => FaithfulRollbackCode(old(journal.View(memory)), memory.env)
  {
    match call
    case ApplyCall(rq) => result, refused := journal.Apply(rq, memory);
    case RollbackCall => result, refused := journal.Rollback(memory);
  }

  /** The class makes only such runs: any sequence of calls on one journal and one memory, with everything
      else the adapter answers free to change between calls, leaves memory in the state the journal reports. */
  method Drive(journal: Journal, memory: ObjectMemoryView, calls: seq<Call>, environments: seq<Environment>)
    returns (ghost run: seq<Event>)
    requires journal.Valid() && journal.state == Pristine && |environments| == |calls|
    modifies journal, journal.baseline, journal.replacement, memory
    ensures journal.Valid()
    ensures |run| == |calls| && forall i | 0 <= i < |calls| :: run[i].call == calls[i] && run[i].env == environments[i]
    ensures IsRun(journal.rules, old(journal.View(memory)), run)
    ensures After(old(journal.View(memory)), run) == journal.View(memory)
    ensures Truthful(journal.rules, old(memory.bytes), journal.View(memory))
  {
    hide Truthful, Step;
    ghost var start := journal.View(memory);
    run := [];
    for i := 0 to |calls|
      invariant journal.Valid()
      invariant |run| == i && forall j | 0 <= j < i :: run[j].call == calls[j] && run[j].env == environments[j]
      invariant IsRun(journal.rules, start, run)
      invariant After(start, run) == journal.View(memory)
    {
      memory.env := environments[i];
      var result, refused := Perform(journal, memory, calls[i]);
      ghost var event := Event(calls[i], environments[i], refused, result, journal.View(memory));
      assert (run + [event])[..|run|] == run;
      run := run + [event];
    }
    EveryRunIsTruthful(journal.rules, start, run);
  }

  // ---- A concrete transaction ----

  const EXAMPLE_FIELD: Word := 0x2000

  const EXAMPLE_START := Snapshot(Pristine, None, map[EXAMPLE_FIELD := 0, EXAMPLE_FIELD + 1 := 0, EXAMPLE_FIELD + 2 := 0, EXAMPLE_FIELD + 3 := 0], [])

  const EXAMPLE_REPLACEMENT: seq<byte> := [1, 0, 0, 0]

  function ExampleRules(): FloatRules {
    FloatRules(_ => true, (_, _, _) => true)
  }

  /** An adapter on which the owner is still there, or no longer. */
  function ExampleEnvironment(ownerCurrent: bool): Environment {
    Environment((address, size) => Some(MemoryRegion(EXAMPLE_FIELD, 4, true, true, false)),
                _ => ownerCurrent, (_, _, _, _) => true, true, FrameBoundary)
  }

  /** Four bytes of the world field of view, in an admitted module. */
  function ExampleRequest(): ApplyRequest {
    var version := RuntimeVersion(1, 6, 0, 0);
    var name := "SkyrimSE.exe";
    ApplyRequest(
      Allowlists([RuntimeSupportRecord("example", name, version, X64, [], 1)], []),
      ExecutableIdentity(name, name, version, X64, [], 1, 1, 1),
      Prerequisites(true, true, RuntimeEvaluation(RuntimeAdmitted, RuntimeOk, 0, name, version, [], 1, 1, 1),
                    CapabilityEntry(CAMERA, HookReady, NoDiagnostic), FrameBoundary),
      Binding(CameraWorldFov, OwnerToken(1, 1), EXAMPLE_FIELD), EXAMPLE_REPLACEMENT)
  }

  /** It passes, and an adapter that never fails applies it. */
  lemma ExamplePasses()
    ensures FaithfulApplyCode(ExampleRules(), EXAMPLE_START, ExampleRequest(), ExampleEnvironment(true)) == CodeApplied
  {
    var rq := ExampleRequest();
    assert Refusal(Pristine, rq, ExampleEnvironment(true)) == None;
    assert Collect(EXAMPLE_START.bytes, EXAMPLE_FIELD, 4) == [0, 0, 0, 0];
    assert FieldValid(ExampleRules(), EXAMPLE_START.bytes, rq.binding, 4);
    hide Refusal, FieldValid, Collect;
  }

  /** What a successful apply of it leaves. */
  lemma ExampleHolds(e: Event)
    requires e.call == ApplyCall(ExampleRequest()) && e.env == ExampleEnvironment(true)
    requires Step(ExampleRules(), EXAMPLE_START, e) && e.result.code == CodeApplied
    ensures e.after.state == Applied && e.after.held.Some? && e.after.bytes != EXAMPLE_START.bytes
    ensures RollbackObstacle(e.after.held.value, ExampleEnvironment(false)) == Some(OwnerInvalidatedBeforeRollback)
  {
    assert FreshOutcome(ExampleRules(), EXAMPLE_START, ExampleRequest(), e.after, e.result);
    assert WriteOutcome(EXAMPLE_START, ExampleRequest(), Collect(EXAMPLE_START.bytes, EXAMPLE_FIELD, 4), e.after, e.result);
    assert Present(e.after.bytes, EXAMPLE_FIELD, EXAMPLE_REPLACEMENT);
    assert e.after.bytes[EXAMPLE_FIELD] == EXAMPLE_REPLACEMENT[0];
  }

  /** Losing the owner is real: the class applies the example, the owner goes, and the rollback needs recovery. */
  method LoseOwner() returns (first: ObjectResult, second: ObjectResult, ghost applied: Event, ghost lost: Event)
    ensures first == ObjectResult(CodeApplied, Applied, false)
    ensures second == ObjectResult(OwnerInvalidatedBeforeRollback, RecoveryRequired, false)
    ensures applied.call == ApplyCall(ExampleRequest()) && applied.env == ExampleEnvironment(true) && applied.result == first
    ensures lost.call == RollbackCall && lost.env == ExampleEnvironment(false) && lost.result == second
    ensures Step(ExampleRules(), EXAMPLE_START, applied) && Step(ExampleRules(), applied.after, lost)
  {
    hide Step, Refusal, FaithfulApplyCode, FaithfulRollbackCode, RollbackObstacle;
    var journal := new Journal(ExampleRules());
    var memory := new ObjectMemoryView(EXAMPLE_START.bytes, ExampleEnvironment(true), true);
    ExamplePasses();
    ghost var refused: bool;
    first, refused := Perform(journal, memory, ApplyCall(ExampleRequest()));
    applied := Event(ApplyCall(ExampleRequest()), ExampleEnvironment(true), refused, first, journal.View(memory));
    ExampleHolds(applied);
    AppliedHasNoCompensation(applied);
    memory.env := ExampleEnvironment(false);
    second, refused := Perform(journal, memory, RollbackCall);
    lost := Event(RollbackCall, ExampleEnvironment(false), refused, second, journal.View(memory));
    OwnerLossTells(ExampleRules(), applied.after, lost);
  }

  lemma OwnerLossTells(rules: FloatRules, s: Snapshot, e: Event)
    requires s.state == Applied && s.held.Some? && e.call == RollbackCall && Step(rules, s, e)
    requires RollbackObstacle(s.held.value, e.env) == Some(OwnerInvalidatedBeforeRollback)
    ensures e.result == ObjectResult(OwnerInvalidatedBeforeRollback, RecoveryRequired, false)
    ensures e.after == s.(state := RecoveryRequired) && !e.refused
  {
  }

  lemma AppliedHasNoCompensation(e: Event)
    requires e.call == ApplyCall(ExampleRequest()) && e.result.code == CodeApplied && Step(ExampleRules(), EXAMPLE_START, e)
    ensures e.result == ObjectResult(CodeApplied, Applied, false)
  {
    assert FreshOutcome(ExampleRules(), EXAMPLE_START, ExampleRequest(), e.after, e.result);
  }

  // ---- Typed mutation ----

  datatype MutationRequest = MutationRequest(
    lists: Allowlists, identity: ExecutableIdentity, prerequisites: Prerequisites, name: string, value: PropertyValue)

  datatype MutationResult = MutationResult(diagnostic: PropertyDiagnostic, transaction: ObjectResult)

  /** Why a mutation never reaches the journal. */
  function MutationRefusal(rules: FloatRules, rq: MutationRequest, resolve: PropertyId -> Option<Binding>, env: Environment):
    Option<(PropertyDiagnostic, ObjectCode)>
  {
    var p, schema := rq.prerequisites, FindByName(PROPERTIES, rq.name);
    if schema == None then Some((UnknownIdentifier, InvalidBinding))
    else if schema.value.access != ObserveAndReversibleObjectWrite then Some((PropertyMutationNotAllowed, MutationNotAllowed))
    else if !p.featureGate then Some((TransactionRejected, FeatureGateDisabled))
    else if !p.lifecyclePermitted then Some((TransactionRejected, LifecycleMutationDenied))
    else if !MatchesSupportedRuntime(rq.lists, rq.identity, p.runtime) then Some((PropertyRuntimeNotAdmitted, RuntimeNotAdmitted))
    else if !CapabilityMatches(p.capability, schema.value) then Some((PropertyCapabilityUnavailable, CapabilityUnavailable))
    else if !env.threadPermitted then Some((TransactionRejected, ThreadNotPermitted))
    else if p.phase == NoPhase || env.phase != p.phase then Some((TransactionRejected, PhaseMismatch))
    else if Validate(rules, schema.value, rq.value) != PropertyOk then
      Some((Validate(rules, schema.value, rq.value), InvalidReplacement))
    else
      var binding := resolve(schema.value.id);
      if binding == None || binding.value.property != schema.value.id then Some((BindingUnavailable, InvalidBinding))
      else if EncodeValue(schema.value, rq.value) == None then Some((ValueTypeMismatch, InvalidReplacement))
      else None
  }

  /** What an accepted mutation amounts to: the named property is writable and schema-checked, and its
      bound field holds bytes that decode to exactly the requested value. */
  ghost predicate ValueInPlace(rules: FloatRules, rq: MutationRequest, resolve: PropertyId -> Option<Binding>, bytes: Contents) {
    var schema := FindByName(PROPERTIES, rq.name);
    && Writable(schema)
    && Validate(rules, schema.value, rq.value) == PropertyOk
    && resolve(schema.value.id).Some?
    && var field, size := resolve(schema.value.id).value.field, ValueSize(schema.value.kind);
       Mapped(bytes, field, size) && Decode(schema.value.kind, Collect(bytes, field, size)) == rq.value
  }

  /** Bytes present at a field that encode a value decode to that value. */
  lemma PresentDecodes(schema: Schema, value: PropertyValue, bytes: Contents, field: Word)
    requires EncodeValue(schema, value).Some?
    requires Present(bytes, field, EncodeValue(schema, value).value)
    ensures |EncodeValue(schema, value).value| == ValueSize(schema.kind)
    ensures Mapped(bytes, field, ValueSize(schema.kind))
    ensures Decode(schema.kind, Collect(bytes, field, ValueSize(schema.kind))) == value
  {
    DecodeOfEncode(schema.kind, value);
    CollectIsPresent(bytes, field, Encode(value));
  }

  method ApplyEnginePropertyMutation(rq: MutationRequest, resolve: PropertyId -> Option<Binding>,
                                     memory: ObjectMemoryView, journal: Journal) returns (result: MutationResult, ghost refused: bool)
    requires journal.Valid()
    modifies journal, journal.baseline, journal.replacement, memory`bytes, memory`writes
    ensures journal.Valid()
    ensures match MutationRefusal(journal.rules, rq, resolve, memory.env)
            case Some((diagnostic, code)) =>
              && result == MutationResult(diagnostic, ObjectResult(code, old(journal.state), false))
              && journal.View(memory) == old(journal.View(memory))
            case None =>
              && (result.diagnostic == PropertyOk <==> result.transaction.code in {CodeApplied, AlreadyApplied, NoChange})
              && (result.diagnostic == PropertyOk || result.diagnostic == TransactionRejected)
              && var schema := FindByName(PROPERTIES, rq.name).value;
                 ApplyOutcome(journal.rules, old(journal.View(memory)),
                              ApplyRequest(rq.lists, rq.identity, rq.prerequisites, resolve(schema.id).value, Encode(rq.value)),
                              memory.env, refused, journal.View(memory), result.transaction)
    ensures result.diagnostic == PropertyOk ==> ValueInPlace(journal.rules, rq, resolve, memory.bytes)
  {
    hide ApplyOutcome, MatchesSupportedRuntime, CapabilityMatches, FindByName, Validate, Decode, Encode;
    var p, schema, env := rq.prerequisites, FindByName(PROPERTIES, rq.name), memory.env;
    if schema == None {
      return MutationResult(UnknownIdentifier, ObjectResult(InvalidBinding, journal.state, false)), false;
    }
    if schema.value.access != ObserveAndReversibleObjectWrite {
      return MutationResult(PropertyMutationNotAllowed, ObjectResult(MutationNotAllowed, journal.state, false)), false;
    }
    if !p.featureGate {
      return MutationResult(TransactionRejected, ObjectResult(FeatureGateDisabled, journal.state, false)), false;
    }
    if !p.lifecyclePermitted {
      return MutationResult(TransactionRejected, ObjectResult(LifecycleMutationDenied, journal.state, false)), false;
    }
    if !MatchesSupportedRuntime(rq.lists, rq.identity, p.runtime) {
      return MutationResult(PropertyRuntimeNotAdmitted, ObjectResult(RuntimeNotAdmitted, journal.state, false)), false;
    }
    if !CapabilityMatches(p.capability, schema.value) {
      return MutationResult(PropertyCapabilityUnavailable, ObjectResult(CapabilityUnavailable, journal.state, false)), false;
    }
    if !env.threadPermitted {
      return MutationResult(TransactionRejected, ObjectResult(ThreadNotPermitted, journal.state, false)), false;
    }
    if p.phase == NoPhase || env.phase != p.phase {
      return MutationResult(TransactionRejected, ObjectResult(PhaseMismatch, journal.state, false)), false;
    }
    var validation := Validate(journal.rules, schema.value, rq.value);
    if validation != PropertyOk {
      return MutationResult(validation, ObjectResult(InvalidReplacement, journal.state, false)), false;
    }
    var binding := resolve(schema.value.id);
    if binding == None || binding.value.property != schema.value.id {
      return MutationResult(BindingUnavailable, ObjectResult(InvalidBinding, journal.state, false)), false;
    }
    var encoded := EncodeValue(schema.value, rq.value);
    if encoded == None {
      return MutationResult(ValueTypeMismatch, ObjectResult(InvalidReplacement, journal.state, false)), false;
    }
    result, refused := Transact(rq, schema.value, binding.value, encoded.value, memory, journal);
  }

  /** Hand the encoded value to the journal. */
  method Transact(rq: MutationRequest, schema: Schema, binding: Binding, encoded: seq<byte>,
                  memory: ObjectMemoryView, journal: Journal) returns (result: MutationResult, ghost refused: bool)
    requires journal.Valid()
    requires EncodeValue(schema, rq.value) == Some(encoded)
    modifies journal, journal.baseline, journal.replacement, memory`bytes, memory`writes
    ensures journal.Valid()
    ensures ApplyOutcome(journal.rules, old(journal.View(memory)),
                         ApplyRequest(rq.lists, rq.identity, rq.prerequisites, binding, encoded),
                         memory.env, refused, journal.View(memory), result.transaction)
    ensures result.diagnostic == if result.transaction.code in {CodeApplied, AlreadyApplied, NoChange} then PropertyOk else TransactionRejected
    ensures result.diagnostic == PropertyOk ==>
              && Mapped(memory.bytes, binding.field, ValueSize(schema.kind))
              && Decode(schema.kind, Collect(memory.bytes, binding.field, ValueSize(schema.kind))) == rq.value
  {
    var transaction;
    transaction, refused := journal.Apply(ApplyRequest(rq.lists, rq.identity, rq.prerequisites, binding, encoded), memory);
    var accepted := transaction.code in {CodeApplied, AlreadyApplied, NoChange};
    if accepted {
      assert Present(memory.bytes, binding.field, encoded);
      PresentDecodes(schema, rq.value, memory.bytes, binding.field);
    }
    result := MutationResult(if accepted then PropertyOk else TransactionRejected, transaction);
  }
}
