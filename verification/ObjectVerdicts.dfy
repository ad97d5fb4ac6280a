/** What each code of the object journal says about the request, the environment and the field, over any call the
    journal can make, and which mutations never reach it. */
module ObjectVerdicts {
  import opened Words
  import opened Memory
  import opened EngineBridge
  import opened EngineProperties
  import opened ObjectPropertyJournal
  import opened ObjectRuns

  // ---- Admission ----

  /** The region is there, holds the four bytes of the field, and may be read and written but not run. */
  predicate DataRegion(region: Option<MemoryRegion>, field: Word) {
    && region.Some? && region.value.base != 0
    && region.value.base <= field && field + 4 <= region.value.base + region.value.size
    && region.value.readable && region.value.writable && !region.value.executable
  }

  /** Nothing is written, no state changes, and nothing is reported in place, unless all of this held. */
  lemma ChangesWerePermitted(rules: FloatRules, s: Snapshot, rq: ApplyRequest, e: Event)
    requires e.call == ApplyCall(rq) && Step(rules, s, e)
    requires e.after != s || e.result.code in {CodeApplied, AlreadyApplied, NoChange}
    ensures rq.prerequisites.featureGate && rq.prerequisites.lifecyclePermitted
    ensures RuntimeHolds(rq.lists, rq.identity, rq.prerequisites.runtime)
    ensures s.state != RecoveryRequired
    ensures rq.binding.property == CameraWorldFov || rq.binding.property == CameraFirstPersonFov
    ensures rq.prerequisites.capability == CapabilityEntry(0, HookReady, NoDiagnostic)
    ensures rq.binding.owner.address != 0 && rq.binding.owner.generation != 0 && rq.binding.field != 0
    ensures |rq.replacement| == 4
    ensures e.env.threadPermitted && e.env.phase == rq.prerequisites.phase != NoPhase
    ensures e.env.ownerCurrent(rq.binding.owner)
    ensures e.env.declared(rq.binding.property, rq.binding.owner, rq.binding.field, 4)
    ensures DataRegion(e.env.regions(rq.binding.field, 4), rq.binding.field)
  {
    RefusalCodes(rules, s, rq, e);
    hide ApplyOutcome, RuntimeHolds, Refusal;
  }

  /** Why an apply was turned away: the first of these, in this order, and then nothing was touched. */
  lemma RefusalCodes(rules: FloatRules, s: Snapshot, rq: ApplyRequest, e: Event)
    requires e.call == ApplyCall(rq) && Step(rules, s, e)
    ensures var p, b, code := rq.prerequisites, rq.binding, e.result.code;
            var region := e.env.regions(b.field, |rq.replacement|);
            if !p.featureGate then code == FeatureGateDisabled && e.after == s
            else if !p.lifecyclePermitted then code == LifecycleMutationDenied && e.after == s
            else if !RuntimeHolds(rq.lists, rq.identity, p.runtime) then code == RuntimeNotAdmitted && e.after == s
            else if s.state == RecoveryRequired then code == JournalConflict && e.after == s
            else if b.property != CameraWorldFov && b.property != CameraFirstPersonFov then code == MutationNotAllowed && e.after == s
            else if p.capability != CapabilityEntry(0, HookReady, NoDiagnostic) then code == CapabilityUnavailable && e.after == s
            else if b.owner.address == 0 || b.owner.generation == 0 || b.field == 0 then code == InvalidBinding && e.after == s
            else if |rq.replacement| != 4 then code == InvalidReplacement && e.after == s
            else if !e.env.threadPermitted then code == ThreadNotPermitted && e.after == s
            else if p.phase == NoPhase || e.env.phase != p.phase then code == PhaseMismatch && e.after == s
            else if !e.env.ownerCurrent(b.owner) then code == OwnerUnavailable && e.after == s
            else if !e.env.declared(b.property, b.owner, b.field, 4) then code == FieldSchemaMismatch && e.after == s
            else if region == None || region.value.base == 0 || b.field < region.value.base
                    || b.field + 4 > region.value.base + region.value.size then code == FieldRegionUnavailable && e.after == s
            else if !region.value.readable then code == FieldRegionNotReadable && e.after == s
            else if !region.value.writable then code == RegionNotWritable && e.after == s
            else if region.value.executable then code == ExecutableRegionRejected && e.after == s
            else if s.state == Applied then AppliedCode(s, rq, e)
            else FreshCode(rules, s, rq, e)
  {
    MatchesIffHolds(rq.lists, rq.identity, rq.prerequisites.runtime);
    var region := e.env.regions(rq.binding.field, |rq.replacement|);
    if region.Some? {
      ContainsIsInclusion(region.value.base, region.value.size, rq.binding.field, |rq.replacement|);
    }
    if Refusal(s.state, rq, e.env) == None && s.state == Pristine {
      FreshCodes(rules, s, rq, e);
    }
    hide MatchesSupportedRuntime, RuntimeHolds, Contains, FreshOutcome, FreshCode;
  }

  /** Over an applied journal only the same transaction, still in place and seen to be, is accepted. */
  predicate AppliedCode(s: Snapshot, rq: ApplyRequest, e: Event) {
    && e.after == s
    && e.result.code == if s.held.Some? && !e.refused && Present(s.bytes, rq.binding.field, rq.replacement)
                           && s.held.value == Held(rq.binding, rq.prerequisites.phase, s.held.value.baseline, rq.replacement)
                        then AlreadyApplied else JournalConflict
  }

  /** The field of view the field shows: its pattern is finite and between the bounds. */
  predicate ShowsFieldOfView(rules: FloatRules, bytes: Contents, field: Word)
    requires Mapped(bytes, field, 4)
  {
    var bits := LittleWord(bytes[field], bytes[field + 1], bytes[field + 2], bytes[field + 3]);
    rules.finite(bits) && rules.within(bits, 0x3F80_0000, 0x4333_0000)
  }

  predicate FreshCode(rules: FloatRules, s: Snapshot, rq: ApplyRequest, e: Event) {
    var field, code := rq.binding.field, e.result.code;
    if e.refused || !Mapped(s.bytes, field, 4) then code == BaselineReadFailed && e.after == s
    else if !ShowsFieldOfView(rules, s.bytes, field) then code == BaselineInvalid && e.after == s
    else if Present(s.bytes, field, rq.replacement) then code == NoChange && e.after == s
    else code in {CodeApplied, ApplyFailedRolledBack, ApplyFailedRecoveryRequired}
  }

  lemma ValidIffShows(rules: FloatRules, bytes: Contents, binding: Binding)
    requires binding.property == CameraWorldFov || binding.property == CameraFirstPersonFov
    requires Mapped(bytes, binding.field, 4)
    ensures FieldValid(rules, bytes, binding, 4) <==> ShowsFieldOfView(rules, bytes, binding.field)
  {
    FourBytes(Collect(bytes, binding.field, 4));
  }

  lemma FreshCodes(rules: FloatRules, s: Snapshot, rq: ApplyRequest, e: Event)
    requires e.call == ApplyCall(rq) && Step(rules, s, e)
    requires Refusal(s.state, rq, e.env) == None && s.state == Pristine
    ensures FreshCode(rules, s, rq, e)
  {
    AdmittedShape(s.state, rq, e.env);
    if Mapped(s.bytes, rq.binding.field, 4) {
      ValidIffShows(rules, s.bytes, rq.binding);
      if Present(s.bytes, rq.binding.field, rq.replacement) {
        CollectIsPresent(s.bytes, rq.binding.field, rq.replacement);
      }
    }
    hide Refusal, WriteOutcome, FieldValid, ShowsFieldOfView;
  }

  // ---- Rollback ----

  /** What a rollback reports, by the state it finds and what the environment then answers. */
  lemma RollbackCodes(rules: FloatRules, s: Snapshot, e: Event)
    requires e.call == RollbackCall && Step(rules, s, e)
    ensures s.state == Applied ==> s.held.Some?
    ensures var code := e.result.code;
            match s.state
            case Pristine => code == AlreadyPristine && e.after == s
            case RecoveryRequired => code == RollbackFailedRecoveryRequired && e.after == s
            case Applied =>
              var held := s.held.value;
              var b, size := held.binding, |held.replacement|;
              if !e.env.threadPermitted then code == ThreadNotPermitted && e.after == s
              else if e.env.phase != held.phase then code == PhaseMismatch && e.after == s
              else if !e.env.ownerCurrent(b.owner) then
                code == OwnerInvalidatedBeforeRollback && e.after == s.(state := RecoveryRequired)
              else if !e.env.declared(b.property, b.owner, b.field, size) then
                code == FieldSchemaMismatch && e.after == s.(state := RecoveryRequired)
              else if e.refused || !Usable(e.env.regions(b.field, size), b.field, size) || !Present(s.bytes, b.field, held.replacement) then
                code == RollbackBaselineMismatch && e.after == s
              else code in {RolledBack, RollbackFailedStillApplied, RollbackFailedRecoveryRequired}
  {
    if s.state == Applied {
      var b, size := s.held.value.binding, |s.held.value.replacement|;
      var region := e.env.regions(b.field, size);
      if region.Some? {
        ContainsIsInclusion(region.value.base, region.value.size, b.field, size);
      }
    }
    hide Contains, Present;
  }

  predicate Usable(region: Option<MemoryRegion>, field: Word, size: nat) {
    && size > 0 && region.Some? && region.value.base != 0
    && region.value.base <= field && field + size <= region.value.base + region.value.size
    && region.value.readable && region.value.writable && !region.value.executable
  }

  // ---- States, compensation and writes ----

  /** The state each code leaves. */
  predicate StateOf(s: Snapshot, code: ObjectCode, t: Snapshot, apply: bool) {
    match code
    case CodeApplied => s.state == Pristine && t.state == Applied
    case AlreadyApplied | RollbackBaselineMismatch | RollbackFailedStillApplied => s.state == Applied && t.state == Applied
    case NoChange | ApplyFailedRolledBack | AlreadyPristine => s.state == Pristine && t.state == Pristine
    case RolledBack => s.state == Applied && t.state == Pristine && t.held == None
    case ApplyFailedRecoveryRequired => s.state == Pristine && t.state == RecoveryRequired
    case RollbackFailedRecoveryRequired => s.state != Pristine && t.state == RecoveryRequired
    case OwnerInvalidatedBeforeRollback => s.state == Applied && t == s.(state := RecoveryRequired)
    case FieldSchemaMismatch => t == if apply then s else s.(state := RecoveryRequired)
    case _ => t == s
  }

  lemma FreshStates(rules: FloatRules, s: Snapshot, rq: ApplyRequest, t: Snapshot, r: ObjectResult)
    requires FreshOutcome(rules, s, rq, t, r) && s.state == Pristine
    ensures StateOf(s, r.code, t, true)
  {
    hide FieldValid, Present, UnchangedOutsideRange, Wrote;
  }

  lemma RefusalStates(s: Snapshot, rq: ApplyRequest, env: Environment)
    ensures s.state == RecoveryRequired ==> Refusal(s.state, rq, env).Some?
    ensures Refusal(s.state, rq, env).Some? ==> StateOf(s, Refusal(s.state, rq, env).value, s, true)
  {
    hide MatchesSupportedRuntime;
  }

  lemma StateOfCode(rules: FloatRules, s: Snapshot, e: Event)
    requires Step(rules, s, e)
    ensures e.result.state == e.after.state && StateOf(s, e.result.code, e.after, e.call.ApplyCall?)
  {
    match e.call
    case ApplyCall(rq) =>
      RefusalStates(s, rq, e.env);
      if Refusal(s.state, rq, e.env) == None && s.state == Pristine && !e.refused {
        FreshStates(rules, s, rq, e.after, e.result);
      }
    case RollbackCall => RollbackCodes(rules, s, e);
    hide Refusal, FreshOutcome, Present, UnchangedOutsideRange, Wrote, Usable, FieldRollable;
  }

  predicate OneWrite(before: seq<WriteCall>, after: seq<WriteCall>, field: Word, data: seq<byte>) {
    && |after| == |before| + 1
    && after == before + [WriteCall(field, data, after[|before|].accepted)]
  }

  predicate TwoWrites(before: seq<WriteCall>, after: seq<WriteCall>, field: Word, first: seq<byte>, second: seq<byte>) {
    && |after| == |before| + 2
    && after == before + [WriteCall(field, first, after[|before|].accepted), WriteCall(field, second, after[|before| + 1].accepted)]
  }

  lemma WroteOne(before: seq<WriteCall>, after: seq<WriteCall>, field: Word, data: seq<byte>)
    requires Wrote(before, after, field, [data])
    ensures OneWrite(before, after, field, data)
  {
    assert [data][0] == data;
    assert after == before + [after[|before| + 0]];
  }

  lemma WroteTwo(before: seq<WriteCall>, after: seq<WriteCall>, field: Word, first: seq<byte>, second: seq<byte>)
    requires Wrote(before, after, field, [first, second])
    ensures TwoWrites(before, after, field, first, second)
  {
    assert [first, second][0] == first && [first, second][1] == second;
    assert after == before + [after[|before| + 0], after[|before| + 1]];
  }

  lemma RefusalWritesNothing(state: ObjectState, rq: ApplyRequest, env: Environment)
    ensures state == RecoveryRequired ==> Refusal(state, rq, env).Some?
    ensures Refusal(state, rq, env).Some? ==>
              Refusal(state, rq, env).value !in {CodeApplied, ApplyFailedRolledBack, ApplyFailedRecoveryRequired}
  {
    hide MatchesSupportedRuntime;
  }

  lemma FreshWrites(rules: FloatRules, s: Snapshot, rq: ApplyRequest, t: Snapshot, r: ObjectResult)
    requires FreshOutcome(rules, s, rq, t, r)
    ensures var field := rq.binding.field;
            match r.code
            case CodeApplied => !r.compensation && OneWrite(s.writes, t.writes, field, rq.replacement)
            case ApplyFailedRolledBack | ApplyFailedRecoveryRequired =>
              && r.compensation && Mapped(s.bytes, field, |rq.replacement|)
              && TwoWrites(s.writes, t.writes, field, rq.replacement, Collect(s.bytes, field, |rq.replacement|))
            case _ => !r.compensation && t.writes == s.writes
    ensures r.code in {CodeApplied, ApplyFailedRecoveryRequired} ==>
              && Mapped(s.bytes, rq.binding.field, |rq.replacement|)
              && t.held == Some(Held(rq.binding, rq.prerequisites.phase,
                                     Collect(s.bytes, rq.binding.field, |rq.replacement|), rq.replacement))
  {
    if r.code in {CodeApplied, ApplyFailedRolledBack, ApplyFailedRecoveryRequired} {
      var found := Collect(s.bytes, rq.binding.field, |rq.replacement|);
      if r.code == CodeApplied {
        WroteOne(s.writes, t.writes, rq.binding.field, rq.replacement);
      } else {
        WroteTwo(s.writes, t.writes, rq.binding.field, rq.replacement, found);
      }
    }
    hide Wrote, Collect, Mapped, Present, UnchangedOutsideRange, OneWrite, TwoWrites;
  }

  /** Which writes an apply makes, in order, by the code it reports: the replacement, and after it, when that did not
      take, the bytes found; and it claims compensation exactly in the second case. */
  lemma ApplyWrites(rules: FloatRules, s: Snapshot, rq: ApplyRequest, e: Event)
    requires e.call == ApplyCall(rq) && Step(rules, s, e)
    ensures var field := rq.binding.field;
            match e.result.code
            case CodeApplied => !e.result.compensation && OneWrite(s.writes, e.after.writes, field, rq.replacement)
            case ApplyFailedRolledBack | ApplyFailedRecoveryRequired =>
              && e.result.compensation && Mapped(s.bytes, field, |rq.replacement|)
              && TwoWrites(s.writes, e.after.writes, field, rq.replacement, Collect(s.bytes, field, |rq.replacement|))
            case _ => !e.result.compensation && e.after.writes == s.writes
    ensures e.result.code in {CodeApplied, ApplyFailedRecoveryRequired} ==>
              && Mapped(s.bytes, rq.binding.field, |rq.replacement|)
              && e.after.held == Some(Held(rq.binding, rq.prerequisites.phase,
                                           Collect(s.bytes, rq.binding.field, |rq.replacement|), rq.replacement))
  {
    RefusalWritesNothing(s.state, rq, e.env);
    hide Refusal, FreshOutcome, Collect, Mapped, Present;
    if Refusal(s.state, rq, e.env) == None && s.state == Pristine && !e.refused {
      FreshWrites(rules, s, rq, e.after, e.result);
    }
  }

  /** A rollback that gets to write writes the captured bytes, once; and it claims compensation exactly when that
      leaves the field in doubt. */
  lemma RollbackWrites(rules: FloatRules, s: Snapshot, e: Event)
    requires e.call == RollbackCall && Step(rules, s, e)
    ensures var wrote := s.held.Some? && OneWrite(s.writes, e.after.writes, s.held.value.binding.field, s.held.value.baseline);
            match e.result.code
            case RolledBack | RollbackFailedStillApplied => wrote && !e.result.compensation
            case RollbackFailedRecoveryRequired =>
              if s.state == RecoveryRequired then !e.result.compensation else wrote && e.result.compensation
            case _ => !e.result.compensation && e.after.writes == s.writes
  {
    RollbackCodes(rules, s, e);
    if e.result.code in {RolledBack, RollbackFailedStillApplied, RollbackFailedRecoveryRequired} && s.state == Applied {
      WroteOne(s.writes, e.after.writes, s.held.value.binding.field, s.held.value.baseline);
    }
    hide FieldRollable, Usable, Present, UnchangedOutsideRange, Wrote, OneWrite;
  }

  // ---- Typed mutation ----

  /** Every mutation that never reaches the journal, and what it reports, in order; the rest are handed on with the
      binding found for the property and the encoded value. */
  lemma MutationCodes(rules: FloatRules, rq: MutationRequest, resolve: PropertyId -> Option<Binding>, env: Environment)
    ensures var p, reported := rq.prerequisites, MutationRefusal(rules, rq, resolve, env);
            var id := if rq.name == "camera.world_fov" then CameraWorldFov else CameraFirstPersonFov;
            if rq.name !in {"camera.world_fov", "camera.first_person_fov"} then
              if FindByName(PROPERTIES, rq.name).Some? then reported == Some((PropertyMutationNotAllowed, MutationNotAllowed))
              else reported == Some((UnknownIdentifier, InvalidBinding))
            else if !p.featureGate then reported == Some((TransactionRejected, FeatureGateDisabled))
            else if !p.lifecyclePermitted then reported == Some((TransactionRejected, LifecycleMutationDenied))
            else if !RuntimeHolds(rq.lists, rq.identity, p.runtime) then reported == Some((PropertyRuntimeNotAdmitted, RuntimeNotAdmitted))
            else if p.capability != CapabilityEntry(0, HookReady, NoDiagnostic) then
              reported == Some((PropertyCapabilityUnavailable, CapabilityUnavailable))
            else if !env.threadPermitted then reported == Some((TransactionRejected, ThreadNotPermitted))
            else if p.phase == NoPhase || env.phase != p.phase then reported == Some((TransactionRejected, PhaseMismatch))
            else if !rq.value.FloatValue? then reported == Some((ValueTypeMismatch, InvalidReplacement))
            else if !rules.finite(rq.value.bits) || !rules.within(rq.value.bits, 0x3F80_0000, 0x4333_0000) then
              reported == Some((ValueOutOfRange, InvalidReplacement))
            else if resolve(id) == None || resolve(id).value.property != id then reported == Some((BindingUnavailable, InvalidBinding))
            else reported == None
  {
    FindByNameCodes(rq.name);
    MatchesIffHolds(rq.lists, rq.identity, rq.prerequisites.runtime);
    hide FindByName, MatchesSupportedRuntime, RuntimeHolds;
  }
}
