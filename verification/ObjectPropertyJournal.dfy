/** The journal for one reversible write to a heap-backed engine field. */
module ObjectPropertyJournal {
  import opened Words
  import opened Memory
  import opened EngineBridge
  import opened EngineProperties

  datatype Phase = NoPhase | MainThreadPostUpdate | FrameBoundary

  datatype OwnerToken = OwnerToken(address: Word, generation: Word)

  datatype Binding = Binding(property: PropertyId, owner: OwnerToken, field: Word)

  const NO_BINDING := Binding(CameraWorldFov, OwnerToken(0, 0), 0)

  datatype ObjectState = Pristine | Applied | RecoveryRequired

  datatype ObjectCode =
    | CodeApplied | AlreadyApplied | NoChange | RolledBack | AlreadyPristine
    | FeatureGateDisabled | LifecycleMutationDenied | RuntimeNotAdmitted | CapabilityUnavailable
    | MutationNotAllowed | InvalidBinding | InvalidReplacement | ThreadNotPermitted | PhaseMismatch
    | OwnerUnavailable | FieldSchemaMismatch | FieldRegionUnavailable | FieldRegionNotReadable
    | RegionNotWritable | ExecutableRegionRejected | BaselineReadFailed | BaselineInvalid | JournalConflict
    | ApplyFailedRolledBack | ApplyFailedRecoveryRequired | RollbackBaselineMismatch
    | RollbackFailedStillApplied | RollbackFailedRecoveryRequired | OwnerInvalidatedBeforeRollback

  datatype ObjectResult = ObjectResult(code: ObjectCode, state: ObjectState, compensation: bool)

  datatype Prerequisites = Prerequisites(
    featureGate: bool, lifecyclePermitted: bool, runtime: RuntimeEvaluation, capability: CapabilityEntry, phase: Phase)

  datatype ApplyRequest = ApplyRequest(
    lists: Allowlists, identity: ExecutableIdentity, prerequisites: Prerequisites, binding: Binding, replacement: seq<byte>)

  /** What the adapter answers, besides memory itself, while one call runs. */
  datatype Environment = Environment(
    regions: RegionMap, ownerCurrent: OwnerToken -> bool, declared: (PropertyId, OwnerToken, Word, nat) -> bool,
    threadPermitted: bool, phase: Phase)

  /** The memory adapter behind the object journal. Whatever its writer reports, it may have left any
      bytes in the range it was given; it touches nothing else. A failed read may scribble on the
      caller's buffer. */
  class ObjectMemoryView {
    var bytes: Contents
    var env: Environment
    ghost var writes: seq<WriteCall>
    const faithful: bool

    constructor (bytes: Contents, env: Environment, faithful: bool)
      ensures this.bytes == bytes && this.env == env && this.faithful == faithful && writes == []
    {
      this.bytes, this.env, this.faithful, this.writes := bytes, env, faithful, [];
    }

    method Read(address: Word, destination: array<byte>, size: nat) returns (ok: bool, ghost refused: bool)
      requires size <= destination.Length
      modifies destination
      ensures ok <==> Mapped(bytes, address, size) && !refused
      ensures ok ==> Present(bytes, address, destination[..size])
      ensures refused ==> Mapped(bytes, address, size)
      ensures faithful ==> !refused
    {
      var refuse: bool := *;
      ok := Mapped(bytes, address, size) && (faithful || !refuse);
      refused := Mapped(bytes, address, size) && !ok;
      for i := 0 to size
        invariant ok ==> forall j | 0 <= j < i :: destination[j] == bytes[address + j]
      {
        var noise: int := *;
        destination[i] := if ok then bytes[address + i] else noise % 256;
      }
    }

    method Write(address: Word, source: seq<byte>) returns (reported: bool)
      modifies this`bytes, this`writes
      ensures writes == old(writes) + [WriteCall(address, source, reported)]
      ensures UnchangedOutsideRange(old(bytes), bytes, address, |source|)
      ensures faithful && Mapped(old(bytes), address, |source|) ==> reported && Present(bytes, address, source)
    {
      var stored: seq<byte> := *;
      reported := *;
      if (faithful && Mapped(bytes, address, |source|)) || |stored| != |source| {
        stored := source;
      }
      if faithful && Mapped(bytes, address, |source|) {
        reported := true;
      }
      bytes := Overlay(bytes, address, stored);
      writes := writes + [WriteCall(address, source, reported)];
    }

    method ReadEquals(address: Word, expected: seq<byte>, scratch: array<byte>) returns (equal: bool, ghost refused: bool)
      modifies scratch
      ensures equal <==> |expected| <= scratch.Length && Present(bytes, address, expected) && !refused
      ensures refused ==> Mapped(bytes, address, |expected|)
      ensures faithful ==> !refused
    {
      if scratch.Length < |expected| {
        return false, false;
      }
      var ok;
      ok, refused := Read(address, scratch, |expected|);
      equal := ok && scratch[..|expected|] == expected;
      if Present(bytes, address, expected) {
        CollectIsPresent(bytes, address, expected);
        if ok {
          CollectIsPresent(bytes, address, scratch[..|expected|]);
        }
      }
    }
  }

  // ---- What a call says ----

  /** What a journal that is not pristine remembers. */
  datatype Held = Held(binding: Binding, phase: Phase, baseline: seq<byte>, replacement: seq<byte>)

  datatype Snapshot = Snapshot(state: ObjectState, held: Option<Held>, bytes: Contents, writes: seq<WriteCall>)

  predicate CapabilityMatches(capability: CapabilityEntry, schema: Schema) {
    capability.capability == schema.capability && capability.state == HookReady && capability.diagnostic == NoDiagnostic
  }

  predicate Writable(schema: Option<Schema>) {
    schema.Some? && schema.value.access == ObserveAndReversibleObjectWrite
  }

  function RegionRefusal(region: Option<MemoryRegion>, address: Word, size: nat): Option<ObjectCode> {
    if region == None || !RegionContains(region.value, address, size) then Some(FieldRegionUnavailable)
    else if !region.value.readable then Some(FieldRegionNotReadable)
    else if !region.value.writable then Some(RegionNotWritable)
    else if region.value.executable then Some(ExecutableRegionRejected)
    else None
  }

  /** The first reason to turn an apply away before the field is read. */
  function Refusal(state: ObjectState, rq: ApplyRequest, env: Environment): Option<ObjectCode> {
    var p, b, size := rq.prerequisites, rq.binding, |rq.replacement|;
    var schema := FindById(b.property);
    if !p.featureGate then Some(FeatureGateDisabled)
    else if !p.lifecyclePermitted then Some(LifecycleMutationDenied)
    else if !MatchesSupportedRuntime(rq.lists, rq.identity, p.runtime) then Some(RuntimeNotAdmitted)
    else if state == RecoveryRequired then Some(JournalConflict)
    else if !Writable(schema) then Some(MutationNotAllowed)
    else if !CapabilityMatches(p.capability, schema.value) then Some(CapabilityUnavailable)
    else if b.owner.address == 0 || b.owner.generation == 0 || b.field == 0 then Some(InvalidBinding)
    else if size != ValueSize(schema.value.kind) || size == 0 || size > MAX_PROPERTY_SIZE then Some(InvalidReplacement)
    else if !env.threadPermitted then Some(ThreadNotPermitted)
    else if p.phase == NoPhase || env.phase != p.phase then Some(PhaseMismatch)
    else if !env.ownerCurrent(b.owner) then Some(OwnerUnavailable)
    else if !env.declared(b.property, b.owner, b.field, size) then Some(FieldSchemaMismatch)
    else RegionRefusal(env.regions(b.field, size), b.field, size)
  }

  predicate SameTransaction(rq: ApplyRequest, held: Held) {
    rq.binding == held.binding && rq.replacement == held.replacement && rq.prerequisites.phase == held.phase
  }

  /** Exactly these writes were issued at the field, in this order. */
  ghost predicate Wrote(before: seq<WriteCall>, after: seq<WriteCall>, field: Word, data: seq<seq<byte>>) {
    && |after| == |before| + |data|
    && after[..|before|] == before
    && forall i | 0 <= i < |data| :: after[|before| + i].address == field && after[|before| + i].data == data[i]
  }

  /** Every apply call ends in one of these ways, and its code says which. `refused` is whether a read of mapped
      memory was refused while the call was checking, before it wrote anything. */
  ghost predicate ApplyOutcome(rules: FloatRules, s: Snapshot, rq: ApplyRequest, env: Environment, refused: bool, t: Snapshot, r: ObjectResult) {
    && r.state == t.state
    && var refusal := Refusal(s.state, rq, env);
       if refusal.Some? then t == s && r.code == refusal.value && !r.compensation && !refused
       else if s.state == Applied then
         && t == s && !r.compensation
         && r.code == if s.held.Some? && SameTransaction(rq, s.held.value) && Present(s.bytes, rq.binding.field, rq.replacement) && !refused
                      then AlreadyApplied else JournalConflict
       else if refused then
         && t == s && !r.compensation && r.code == BaselineReadFailed && Mapped(s.bytes, rq.binding.field, |rq.replacement|)
       else FreshOutcome(rules, s, rq, t, r)
  }

  /** The field holds a valid value of its property. */
  predicate FieldValid(rules: FloatRules, bytes: Contents, binding: Binding, size: nat) {
    && FindById(binding.property).Some?
    && Mapped(bytes, binding.field, size)
    && BaselineIsValid(rules, FindById(binding.property).value, Collect(bytes, binding.field, size))
  }

  /** The outcome on a pristine journal whose request was not turned away and whose reads were all answered. */
  ghost predicate FreshOutcome(rules: FloatRules, s: Snapshot, rq: ApplyRequest, t: Snapshot, r: ObjectResult) {
    var field, size := rq.binding.field, |rq.replacement|;
    match r.code
    case BaselineReadFailed => t == s && !r.compensation && !Mapped(s.bytes, field, size)
    case BaselineInvalid =>
      t == s && !r.compensation && Mapped(s.bytes, field, size) && !FieldValid(rules, s.bytes, rq.binding, size)
    case NoChange =>
      t == s && !r.compensation && FieldValid(rules, s.bytes, rq.binding, size) && Collect(s.bytes, field, size) == rq.replacement
    case CodeApplied | ApplyFailedRolledBack | ApplyFailedRecoveryRequired =>
      && FieldValid(rules, s.bytes, rq.binding, size)
      && Collect(s.bytes, field, size) != rq.replacement
      && WriteOutcome(s, rq, Collect(s.bytes, field, size), t, r)
    case _ => false
  }

  /** The outcome once a valid `baseline` different from the replacement has been captured. */
  ghost predicate WriteOutcome(s: Snapshot, rq: ApplyRequest, baseline: seq<byte>, t: Snapshot, r: ObjectResult) {
    var field, held := rq.binding.field, Held(rq.binding, rq.prerequisites.phase, baseline, rq.replacement);
    match r.code
    case CodeApplied =>
      && !r.compensation && t.state == Applied && t.held == Some(held)
      && Present(t.bytes, field, rq.replacement)
      && UnchangedOutsideRange(s.bytes, t.bytes, field, |rq.replacement|)
      && Wrote(s.writes, t.writes, field, [rq.replacement])
    case ApplyFailedRolledBack =>
      && r.compensation && t == s.(writes := t.writes)
      && Wrote(s.writes, t.writes, field, [rq.replacement, baseline])
    case ApplyFailedRecoveryRequired =>
      && r.compensation && t.state == RecoveryRequired && t.held == Some(held)
      && UnchangedOutsideRange(s.bytes, t.bytes, field, |rq.replacement|)
      && Wrote(s.writes, t.writes, field, [rq.replacement, baseline])
    case _ => false
  }

  predicate FieldRollable(held: Held, env: Environment, bytes: Contents) {
    var size := |held.replacement|;
    && RegionRefusal(env.regions(held.binding.field, size), held.binding.field, size) == None
    && Present(bytes, held.binding.field, held.replacement)
  }

  /** Every rollback call ends in one of these ways, and its code says which; `refused` is as for an apply. */
  ghost predicate RollbackOutcome(s: Snapshot, env: Environment, refused: bool, t: Snapshot, r: ObjectResult) {
    && r.state == t.state
    && if s.state == Pristine then t == s && r.code == AlreadyPristine && !r.compensation && !refused
       else if s.state == RecoveryRequired then t == s && r.code == RollbackFailedRecoveryRequired && !r.compensation && !refused
       else s.held.Some? && AppliedRollbackOutcome(s, s.held.value, env, refused, t, r)
  }

  /** Why a rollback of `held` may not touch memory now. */
  function RollbackObstacle(held: Held, env: Environment): Option<ObjectCode> {
    var b := held.binding;
    if !env.threadPermitted then Some(ThreadNotPermitted)
    else if env.phase != held.phase then Some(PhaseMismatch)
    else if !env.ownerCurrent(b.owner) then Some(OwnerInvalidatedBeforeRollback)
    else if !env.declared(b.property, b.owner, b.field, |held.replacement|) then Some(FieldSchemaMismatch)
    else None
  }

  /** An obstructed rollback writes nothing; losing the owner or the field means recovery. */
  ghost predicate AppliedRollbackOutcome(s: Snapshot, held: Held, env: Environment, refused: bool, t: Snapshot, r: ObjectResult) {
    match RollbackObstacle(held, env)
    case Some(code) =>
      && r.code == code && !r.compensation && !refused
      && t == s.(state := if code == OwnerInvalidatedBeforeRollback || code == FieldSchemaMismatch then RecoveryRequired else Applied)
    case None => FieldOutcome(s, held, env, refused, t, r)
  }

  /** Either the field could not be rolled back or seen and nothing was done, or its baseline was written. */
  ghost predicate FieldOutcome(s: Snapshot, held: Held, env: Environment, refused: bool, t: Snapshot, r: ObjectResult) {
    if refused || !FieldRollable(held, env, s.bytes) then t == s && r.code == RollbackBaselineMismatch && !r.compensation
    else RestoreOutcome(s, held, t, r)
  }

  /** The outcome of writing the baseline back: one write, and the code says what the field then shows. */
  ghost predicate RestoreOutcome(s: Snapshot, held: Held, t: Snapshot, r: ObjectResult) {
    var b := held.binding;
    && Wrote(s.writes, t.writes, b.field, [held.baseline])
    && match r.code
       case RolledBack =>
         && !r.compensation && t.state == Pristine && t.held == None
         && Present(t.bytes, b.field, held.baseline)
         && UnchangedOutsideRange(s.bytes, t.bytes, b.field, |held.replacement|)
       case RollbackFailedStillApplied => !r.compensation && t == s.(writes := t.writes)
       case RollbackFailedRecoveryRequired =>
         && r.compensation
         && t == s.(state := RecoveryRequired, bytes := t.bytes, writes := t.writes)
         && UnchangedOutsideRange(s.bytes, t.bytes, b.field, |held.replacement|)
       case _ => false
  }

  /** What holds of a journal between calls: pristine journals hold nothing; the others hold a valid
      baseline and a different replacement of the same, schema-determined size for a writable property. */
  predicate Consistent(rules: FloatRules, state: ObjectState, held: Option<Held>) {
    if state == Pristine then held == None
    else
      && held.Some?
      && var h := held.value;
         var schema := FindById(h.binding.property);
         && Writable(schema)
         && BaselineIsValid(rules, schema.value, h.baseline)
         && |h.replacement| == |h.baseline|
         && h.baseline != h.replacement
  }

  /** A request that is not refused names a writable property and brings bytes of its size. */
  lemma AdmittedShape(state: ObjectState, rq: ApplyRequest, env: Environment)
    requires Refusal(state, rq, env) == None
    ensures Writable(FindById(rq.binding.property))
    ensures 0 < |rq.replacement| == ValueSize(FindById(rq.binding.property).value.kind) <= MAX_PROPERTY_SIZE
  {
    hide MatchesSupportedRuntime;
  }

  /** What the writes make of journal and result. */
  lemma WriteTells(s: Snapshot, rq: ApplyRequest, baseline: seq<byte>, t: Snapshot, applied: bool, restored: bool, r: ObjectResult)
    requires UnchangedOutsideRange(s.bytes, t.bytes, rq.binding.field, |rq.replacement|)
    requires applied ==> Present(t.bytes, rq.binding.field, rq.replacement) && Wrote(s.writes, t.writes, rq.binding.field, [rq.replacement])
    requires !applied ==> Wrote(s.writes, t.writes, rq.binding.field, [rq.replacement, baseline])
    requires !applied && restored ==> t == s.(writes := t.writes)
    requires applied || !restored ==> t.held == Some(Held(rq.binding, rq.prerequisites.phase, baseline, rq.replacement))
    requires r == if applied then ObjectResult(CodeApplied, Applied, false)
                  else if restored then ObjectResult(ApplyFailedRolledBack, Pristine, true)
                  else ObjectResult(ApplyFailedRecoveryRequired, RecoveryRequired, true)
    requires t.state == r.state
    ensures WriteOutcome(s, rq, baseline, t, r)
  {
  }

  class Journal {
    const rules: FloatRules
    var state: ObjectState
    var binding: Binding
    var phase: Phase
    var size: nat
    const baseline: array<byte>
    const replacement: array<byte>

    constructor (rules: FloatRules)
      ensures Valid() && state == Pristine && this.rules == rules
      ensures fresh(baseline) && fresh(replacement)
    {
      this.rules := rules;
      state, binding, phase, size := Pristine, NO_BINDING, NoPhase, 0;
      baseline := new byte[MAX_PROPERTY_SIZE](_ => 0);
      replacement := new byte[MAX_PROPERTY_SIZE](_ => 0);
    }

    ghost predicate Shape()
      reads this
    {
      && baseline.Length == replacement.Length == MAX_PROPERTY_SIZE
      && baseline != replacement
      && size <= MAX_PROPERTY_SIZE
      && (state == Pristine ==> binding == NO_BINDING && phase == NoPhase && size == 0)
      && (state != Pristine ==> size != 0)
    }

    ghost function HeldNow(): Option<Held>
      requires Shape()
      reads this, baseline, replacement
    {
      if state == Pristine then None else Some(Held(binding, phase, baseline[..size], replacement[..size]))
    }

    ghost predicate Valid()
      reads this, baseline, replacement
    {
      Shape() && Consistent(rules, state, HeldNow())
    }

    ghost function View(memory: ObjectMemoryView): Snapshot
      requires Shape()
      reads this, baseline, replacement, memory
    {
      Snapshot(state, HeldNow(), memory.bytes, memory.writes)
    }

    method Result(code: ObjectCode, compensation: bool := false) returns (result: ObjectResult)
      ensures result == ObjectResult(code, state, compensation)
    {
      result := ObjectResult(code, state, compensation);
    }

    method Refuse(rq: ApplyRequest, memory: ObjectMemoryView) returns (refusal: Option<ObjectCode>)
      ensures refusal == Refusal(state, rq, memory.env)
    {
      var p, b, env := rq.prerequisites, rq.binding, memory.env;
      if !p.featureGate {
        return Some(FeatureGateDisabled);
      }
      if !p.lifecyclePermitted {
        return Some(LifecycleMutationDenied);
      }
      if !MatchesSupportedRuntime(rq.lists, rq.identity, p.runtime) {
        return Some(RuntimeNotAdmitted);
      }
      if state == RecoveryRequired {
        return Some(JournalConflict);
      }
      var schema := FindById(b.property);
      if schema == None || schema.value.access != ObserveAndReversibleObjectWrite {
        return Some(MutationNotAllowed);
      }
      if !CapabilityMatches(p.capability, schema.value) {
        return Some(CapabilityUnavailable);
      }
      if b.owner.address == 0 || b.owner.generation == 0 || b.field == 0 {
        return Some(InvalidBinding);
      }
      var count := |rq.replacement|;
      if count != ValueSize(schema.value.kind) || count == 0 || count > MAX_PROPERTY_SIZE {
        return Some(InvalidReplacement);
      }
      if !env.threadPermitted {
        return Some(ThreadNotPermitted);
      }
      if p.phase == NoPhase || env.phase != p.phase {
        return Some(PhaseMismatch);
      }
      if !env.ownerCurrent(b.owner) {
        return Some(OwnerUnavailable);
      }
      if !env.declared(b.property, b.owner, b.field, count) {
        return Some(FieldSchemaMismatch);
      }
      refusal := RegionRefusal(env.regions(b.field, count), b.field, count);
    }

    method Apply(rq: ApplyRequest, memory: ObjectMemoryView) returns (result: ObjectResult, ghost refused: bool)
      requires Valid()
      modifies this, baseline, replacement, memory`bytes, memory`writes
      ensures Valid()
      ensures ApplyOutcome(rules, old(View(memory)), rq, memory.env, refused, View(memory), result)
      ensures memory.faithful ==> !refused && result.code == FaithfulApplyCode(rules, old(View(memory)), rq, memory.env)
    {
      refused := false;
      hide FreshOutcome, FaithfulFreshCode;
      var refusal := Refuse(rq, memory);
      if refusal.Some? {
        result := Result(refusal.value);
        return;
      }
      var field, count := rq.binding.field, |rq.replacement|;
      var scratch := new byte[MAX_PROPERTY_SIZE](_ => 0);
      if state == Applied {
        var same := rq.binding == binding && count == size && rq.replacement == replacement[..size] && rq.prerequisites.phase == phase;
        if same {
          same, refused := memory.ReadEquals(binding.field, replacement[..size], scratch);
        }
        result := Result(if same then AlreadyApplied else JournalConflict);
        return;
      }
      result, refused := ApplyFresh(rq, memory, scratch);
    }

    /** The part of an apply that reads and writes the field. */
    method ApplyFresh(rq: ApplyRequest, memory: ObjectMemoryView, scratch: array<byte>) returns (result: ObjectResult, ghost refused: bool)
      requires Valid() && state == Pristine
      requires Refusal(state, rq, memory.env) == None
      requires scratch.Length == MAX_PROPERTY_SIZE && scratch != baseline && scratch != replacement
      modifies this, baseline, replacement, scratch, memory`bytes, memory`writes
      ensures Valid()
      ensures result.state == state
      ensures if refused
              then View(memory) == old(View(memory)) && result == ObjectResult(BaselineReadFailed, Pristine, false)
                   && Mapped(old(memory.bytes), rq.binding.field, |rq.replacement|)
              else FreshOutcome(rules, old(View(memory)), rq, View(memory), result)
      ensures memory.faithful ==> !refused && result.code == FaithfulFreshCode(rules, old(memory.bytes), rq)
    {
      var obstacle;
      obstacle, refused := CaptureBaseline(rq, memory, scratch);
      if obstacle.Some? {
        result := Result(obstacle.value);
        return;
      }
      result := Commit(rq, memory, scratch);
    }

    /** Read the field into the baseline buffer, check it, and read it again. */
    method CaptureBaseline(rq: ApplyRequest, memory: ObjectMemoryView, scratch: array<byte>)
      returns (obstacle: Option<ObjectCode>, ghost refused: bool)
      requires Valid() && state == Pristine
      requires Refusal(state, rq, memory.env) == None
      requires scratch.Length == MAX_PROPERTY_SIZE && scratch != baseline && scratch != replacement
      modifies baseline, scratch
      ensures refused ==> obstacle == Some(BaselineReadFailed) && Mapped(memory.bytes, rq.binding.field, |rq.replacement|)
      ensures memory.faithful ==> !refused
      ensures !refused ==>
                var code := FaithfulFreshCode(rules, memory.bytes, rq);
                obstacle == if code == CodeApplied then None else Some(code)
      ensures obstacle == None ==>
                && FieldValid(rules, memory.bytes, rq.binding, |rq.replacement|)
                && baseline[..|rq.replacement|] == Collect(memory.bytes, rq.binding.field, |rq.replacement|) != rq.replacement
    {
      var field, count := rq.binding.field, |rq.replacement|;
      var schema := FindById(rq.binding.property).value;
      var read;
      read, refused := memory.Read(field, baseline, count);
      if !read {
        return Some(BaselineReadFailed), refused;
      }
      var found := baseline[..count];
      CollectIsPresent(memory.bytes, field, found);
      if !BaselineIsValid(rules, schema, found) {
        Fill(baseline);
        return Some(BaselineInvalid), false;
      }
      if found == rq.replacement {
        Fill(baseline);
        return Some(NoChange), false;
      }
      var stable;
      stable, refused := memory.ReadEquals(field, found, scratch);
      if !stable {
        Fill(baseline);
        return Some(BaselineReadFailed), refused;
      }
      obstacle := None;
    }

    /** Remember the request next to the captured baseline. */
    method Hold(rq: ApplyRequest)
      requires baseline != replacement && |rq.replacement| <= replacement.Length
      modifies this`binding, this`phase, this`size, replacement
      ensures binding == rq.binding && phase == rq.prerequisites.phase && size == |rq.replacement|
      ensures replacement[..size] == rq.replacement
    {
      binding, phase, size := rq.binding, rq.prerequisites.phase, |rq.replacement|;
      Copy(rq.replacement, replacement);
    }

    /** Forget everything. */
    method Clear()
      modifies this`binding, this`phase, this`size, baseline, replacement
      ensures binding == NO_BINDING && phase == NoPhase && size == 0
      ensures forall i | 0 <= i < baseline.Length :: baseline[i] == 0
      ensures forall i | 0 <= i < replacement.Length :: replacement[i] == 0
    {
      binding, phase, size := NO_BINDING, NoPhase, 0;
      Fill(baseline);
      Fill(replacement);
    }

    /** Write the field, with the captured baseline at hand. */
    method Commit(rq: ApplyRequest, memory: ObjectMemoryView, scratch: array<byte>) returns (result: ObjectResult)
      requires Valid() && state == Pristine
      requires Refusal(state, rq, memory.env) == None
      requires scratch.Length == MAX_PROPERTY_SIZE && scratch != baseline && scratch != replacement
      requires FieldValid(rules, memory.bytes, rq.binding, |rq.replacement|)
      requires baseline[..|rq.replacement|] == Collect(memory.bytes, rq.binding.field, |rq.replacement|) != rq.replacement
      modifies this, baseline, replacement, scratch, memory`bytes, memory`writes
      ensures Valid()
      ensures result.state == state
      ensures result.code in {CodeApplied, ApplyFailedRolledBack, ApplyFailedRecoveryRequired}
      ensures WriteOutcome(old(View(memory)), rq, old(Collect(memory.bytes, rq.binding.field, |rq.replacement|)), View(memory), result)
      ensures memory.faithful ==> result.code == CodeApplied
    {
      AdmittedShape(state, rq, memory.env);
      hide Refusal, FindById, BaselineIsValid, WriteOutcome, Wrote, Present;
      ghost var s := View(memory);
      var count := |rq.replacement|;
      var found := baseline[..count];
      Hold(rq);
      var applied, restored := WriteField(memory, rq.binding.field, found, rq.replacement, scratch);
      result := Conclude(applied, restored);
      WriteTells(s, rq, found, View(memory), applied, restored, result);
    }

    /** Keep or forget what is held, according to how the writing went. */
    method Conclude(applied: bool, restored: bool) returns (result: ObjectResult)
      requires baseline.Length == replacement.Length == MAX_PROPERTY_SIZE && baseline != replacement
      requires 0 < size <= MAX_PROPERTY_SIZE && state == Pristine
      modifies this, baseline, replacement
      ensures Shape()
      ensures HeldNow() == if !applied && restored then None
                           else Some(Held(old(binding), old(phase), old(baseline[..size]), old(replacement[..size])))
      ensures result == if applied then ObjectResult(CodeApplied, Applied, false)
                        else if restored then ObjectResult(ApplyFailedRolledBack, Pristine, true)
                        else ObjectResult(ApplyFailedRecoveryRequired, RecoveryRequired, true)
      ensures state == result.state
    {
      if applied {
        state := Applied;
        result := Result(CodeApplied);
      } else if restored {
        Clear();
        result := ObjectResult(ApplyFailedRolledBack, Pristine, true);
      } else {
        state := RecoveryRequired;
        result := Result(ApplyFailedRecoveryRequired, true);
      }
    }

    method Rollback(memory: ObjectMemoryView) returns (result: ObjectResult, ghost refused: bool)
      requires Valid()
      modifies this, baseline, replacement, memory`bytes, memory`writes
      ensures Valid()
      ensures RollbackOutcome(old(View(memory)), memory.env, refused, View(memory), result)
      ensures memory.faithful ==> !refused && result.code == FaithfulRollbackCode(old(View(memory)), memory.env)
    {
      refused := false;
      hide FieldOutcome, FieldRollable, BaselineIsValid;
      if state == Pristine {
        result := Result(AlreadyPristine);
        return;
      }
      if state == RecoveryRequired || size == 0 {
        result := Result(RollbackFailedRecoveryRequired);
        return;
      }
      var obstacle := Obstruct(memory.env);
      if obstacle.Some? {
        result := Result(obstacle.value);
        return;
      }
      result, refused := RollbackField(memory);
    }

    /** A rollback no gate objects to. */
    method RollbackField(memory: ObjectMemoryView) returns (result: ObjectResult, ghost refused: bool)
      requires Valid() && state == Applied
      modifies this, baseline, replacement, memory`bytes, memory`writes
      ensures Valid()
      ensures result.state == state
      ensures FieldOutcome(old(View(memory)), old(HeldNow().value), memory.env, refused, View(memory), result)
      ensures memory.faithful ==>
                !refused && (result.code == RolledBack <==> FieldRollable(old(HeldNow().value), memory.env, old(memory.bytes)))
                && (result.code == RolledBack || result.code == RollbackBaselineMismatch)
    {
      var scratch := new byte[MAX_PROPERTY_SIZE](_ => 0);
      var rollable;
      rollable, refused := IsRollable(memory, scratch);
      if rollable {
        result := Restore(memory, scratch);
      } else {
        result := Result(RollbackBaselineMismatch);
      }
    }

    /** The gates of a rollback. A lost owner or a field that is no longer declared means recovery. */
    method Obstruct(env: Environment) returns (obstacle: Option<ObjectCode>)
      requires Valid() && state == Applied
      modifies this`state
      ensures Valid()
      ensures obstacle == RollbackObstacle(old(HeldNow().value), env)
      ensures state == if obstacle == Some(OwnerInvalidatedBeforeRollback) || obstacle == Some(FieldSchemaMismatch)
                       then RecoveryRequired else Applied
    {
      if !env.threadPermitted {
        return Some(ThreadNotPermitted);
      }
      if env.phase != phase {
        return Some(PhaseMismatch);
      }
      if !env.ownerCurrent(binding.owner) {
        state := RecoveryRequired;
        return Some(OwnerInvalidatedBeforeRollback);
      }
      if !env.declared(binding.property, binding.owner, binding.field, size) {
        state := RecoveryRequired;
        return Some(FieldSchemaMismatch);
      }
      obstacle := None;
    }

    /** Whether the field's region is usable and the replacement is still there. */
    method IsRollable(memory: ObjectMemoryView, scratch: array<byte>) returns (rollable: bool, ghost refused: bool)
      requires Valid() && state == Applied
      requires scratch.Length == MAX_PROPERTY_SIZE && scratch != baseline && scratch != replacement
      modifies scratch
      ensures rollable <==> FieldRollable(HeldNow().value, memory.env, memory.bytes) && !refused
      ensures memory.faithful ==> !refused
    {
      var region := memory.env.regions(binding.field, size);
      if region == None || !RegionContains(region.value, binding.field, size)
         || !region.value.readable || !region.value.writable || region.value.executable {
        return false, false;
      }
      rollable, refused := memory.ReadEquals(binding.field, replacement[..size], scratch);
    }

    /** The writing half of a rollback whose checks passed. */
    method Restore(memory: ObjectMemoryView, scratch: array<byte>) returns (result: ObjectResult)
      requires Valid() && state == Applied
      requires scratch.Length == MAX_PROPERTY_SIZE && scratch != baseline && scratch != replacement
      requires Present(memory.bytes, binding.field, replacement[..size])
      modifies this, baseline, replacement, scratch, memory`bytes, memory`writes
      ensures Valid()
      ensures result.state == state
      ensures RestoreOutcome(old(View(memory)), old(HeldNow().value), View(memory), result)
      ensures memory.faithful ==> result.code == RolledBack
    {
      var restored, still := RestoreField(memory, binding.field, baseline[..size], replacement[..size], scratch);
      if restored {
        state := Pristine;
        Clear();
        result := Result(RolledBack);
      } else if still {
        result := Result(RollbackFailedStillApplied);
      } else {
        state := RecoveryRequired;
        result := Result(RollbackFailedRecoveryRequired, true);
      }
    }
  }

  /** Write the replacement; unless it is reported and read back, write the baseline back. */
  method WriteField(memory: ObjectMemoryView, field: Word, baseline: seq<byte>, replacement: seq<byte>, scratch: array<byte>)
    returns (applied: bool, restored: bool)
    requires |baseline| == |replacement| <= scratch.Length
    requires Present(memory.bytes, field, baseline)
    modifies scratch, memory`bytes, memory`writes
    ensures UnchangedOutsideRange(old(memory.bytes), memory.bytes, field, |replacement|)
    ensures applied ==> Present(memory.bytes, field, replacement) && Wrote(old(memory.writes), memory.writes, field, [replacement])
    ensures !applied ==> Wrote(old(memory.writes), memory.writes, field, [replacement, baseline])
    ensures !applied && restored ==> memory.bytes == old(memory.bytes)
    ensures memory.faithful ==> applied
  {
    ghost var before := memory.bytes;
    CollectIsPresent(before, field, baseline);
    var reported := memory.Write(field, replacement);
    var present, _ := memory.ReadEquals(field, replacement, scratch);
    if reported && present {
      return true, false;
    }
    var _ := memory.Write(field, baseline);
    var shown, _ := memory.ReadEquals(field, baseline, scratch);
    restored := shown;
    if restored {
      RangeRestored(before, memory.bytes, field, baseline);
    }
    applied := false;
  }

  /** Write the baseline back and see which bytes, if either, the field shows. */
  method RestoreField(memory: ObjectMemoryView, field: Word, baseline: seq<byte>, replacement: seq<byte>, scratch: array<byte>)
    returns (restored: bool, still: bool)
    requires |baseline| == |replacement| <= scratch.Length
    requires Present(memory.bytes, field, replacement)
    modifies scratch, memory`bytes, memory`writes
    ensures UnchangedOutsideRange(old(memory.bytes), memory.bytes, field, |replacement|)
    ensures Wrote(old(memory.writes), memory.writes, field, [baseline])
    ensures restored ==> Present(memory.bytes, field, baseline)
    ensures !restored && still ==> memory.bytes == old(memory.bytes)
    ensures memory.faithful ==> restored
  {
    ghost var before := memory.bytes;
    CollectIsPresent(before, field, replacement);
    var _ := memory.Write(field, baseline);
    var shown, _ := memory.ReadEquals(field, baseline, scratch);
    restored := shown;
    still := false;
    if !restored {
      var unmoved, _ := memory.ReadEquals(field, replacement, scratch);
      still := unmoved;
      if still {
        RangeRestored(before, memory.bytes, field, replacement);
      }
    }
  }

  method Fill(buffer: array<byte>)
    modifies buffer
    ensures forall i | 0 <= i < buffer.Length :: buffer[i] == 0
  {
    for i := 0 to buffer.Length
      invariant forall j | 0 <= j < i :: buffer[j] == 0
    {
      buffer[i] := 0;
    }
  }

  method Copy(source: seq<byte>, destination: array<byte>)
    requires |source| <= destination.Length
    modifies destination
    ensures destination[..|source|] == source
  {
    for i := 0 to |source|
      invariant forall j | 0 <= j < i :: destination[j] == source[j]
    {
      destination[i] := source[i];
    }
  }

  /** The code an apply returns on an adapter that never fails. */
  function FaithfulFreshCode(rules: FloatRules, bytes: Contents, rq: ApplyRequest): ObjectCode {
    var field, size := rq.binding.field, |rq.replacement|;
    if !Mapped(bytes, field, size) then BaselineReadFailed
    else if !FieldValid(rules, bytes, rq.binding, size) then BaselineInvalid
    else if Collect(bytes, field, size) == rq.replacement then NoChange
    else CodeApplied
  }

  function FaithfulApplyCode(rules: FloatRules, s: Snapshot, rq: ApplyRequest, env: Environment): ObjectCode {
    var refusal := Refusal(s.state, rq, env);
    if refusal.Some? then refusal.value
    else if s.state == Applied then
      if s.held.Some? && SameTransaction(rq, s.held.value) && Present(s.bytes, rq.binding.field, rq.replacement)
      then AlreadyApplied else JournalConflict
    else FaithfulFreshCode(rules, s.bytes, rq)
  }

  function FaithfulRollbackCode(s: Snapshot, env: Environment): ObjectCode {
    if s.state == Pristine then AlreadyPristine
    else if s.state == RecoveryRequired || s.held == None then RollbackFailedRecoveryRequired
    else
      var held := s.held.value;
      match RollbackObstacle(held, env)
      case Some(code) => code
      case None => if FieldRollable(held, env, s.bytes) then RolledBack else RollbackBaselineMismatch
  }
}
