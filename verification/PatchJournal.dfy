/** The transactional journal for static byte patches inside the admitted module. */
module PatchJournal {
  import opened Words
  import opened Memory
  import opened EngineBridge
  import opened PatchEntries

  datatype PatchState = Pristine | Applied | RecoveryRequired

  datatype PatchCode =
    | CodeApplied | AlreadyApplied | RolledBack | AlreadyPristine
    | FeatureGateDisabled | LifecycleMutationDenied | RuntimeNotAdmitted | CapabilityUnavailable
    | InvalidPatch | PatchOutsideModule | PatchRegionUnavailable | PatchRegionNotReadable
    | RegionNotWritable | ExecutableRegionRejected | BaselineReadFailed | BaselineMismatch
    | ApplyFailedRolledBack | ApplyFailedRecoveryRequired | JournalConflict
    | RollbackBaselineMismatch | RollbackFailedStillApplied | RollbackFailedRecoveryRequired

  datatype PatchResult = PatchResult(code: PatchCode, state: PatchState, compensation: bool)

  datatype PropertyPatch = PropertyPatch(identifier: string, address: Word, expected: seq<byte>, replacement: seq<byte>)

  datatype Prerequisites = Prerequisites(
    featureGate: bool, lifecyclePermitted: bool, runtime: RuntimeEvaluation, capability: CapabilityEntry)

  datatype ApplyRequest = ApplyRequest(
    lists: Allowlists, identity: ExecutableIdentity, prerequisites: Prerequisites, patches: seq<PropertyPatch>)

  /** A journal together with the memory it is used on, between two calls. */
  datatype Snapshot = Snapshot(
    state: PatchState, moduleBase: Word, moduleSize: Word, entries: seq<Entry>,
    bytes: Contents, writes: seq<WriteCall>)

  // ---- What a request is worth, before any write ----

  /** The first gate that turns the request away, whatever its patches are. */
  function GateFault(state: PatchState, rq: ApplyRequest): Option<PatchCode> {
    if !rq.prerequisites.featureGate then Some(FeatureGateDisabled)
    else if !rq.prerequisites.lifecyclePermitted then Some(LifecycleMutationDenied)
    else if !MatchesSupportedRuntime(rq.lists, rq.identity, rq.prerequisites.runtime) then Some(RuntimeNotAdmitted)
    else if rq.prerequisites.capability.state == Unavailable || rq.prerequisites.capability.diagnostic != NoDiagnostic then
      Some(CapabilityUnavailable)
    else if state == RecoveryRequired then Some(JournalConflict)
    else None
  }

  function RegionFault(region: Option<MemoryRegion>, address: Word, size: nat): Option<PatchCode> {
    if region == None || !RegionContains(region.value, address, size) then Some(PatchRegionUnavailable)
    else if !region.value.readable then Some(PatchRegionNotReadable)
    else if !region.value.writable then Some(RegionNotWritable)
    else if region.value.executable then Some(ExecutableRegionRejected)
    else None
  }

  predicate BadShape(p: PropertyPatch) {
    p.identifier == "" || p.expected == [] || |p.expected| != |p.replacement| || p.expected == p.replacement
  }

  predicate Collides(p: PropertyPatch, prior: PropertyPatch) {
    p.identifier == prior.identifier || RangesOverlap(p.address, |p.expected|, prior.address, |prior.expected|)
  }

  /** The first fault of patch `i` that does not depend on its baseline bytes. */
  function PlacementFault(identity: ExecutableIdentity, patches: seq<PropertyPatch>, regions: RegionMap, i: nat): Option<PatchCode>
    requires i < |patches|
  {
    var p := patches[i];
    if BadShape(p) || (exists j | 0 <= j < i :: Collides(p, patches[j])) then Some(InvalidPatch)
    else if !Contains(identity.imageBase, identity.imageSize, p.address, |p.expected|) then Some(PatchOutsideModule)
    else RegionFault(regions(p.address, |p.expected|), p.address, |p.expected|)
  }

  /** The first fault of patch `i` when reads of mapped memory succeed. */
  function PatchFault(identity: ExecutableIdentity, patches: seq<PropertyPatch>, regions: RegionMap, bytes: Contents, i: nat): Option<PatchCode>
    requires i < |patches|
  {
    var placement := PlacementFault(identity, patches, regions, i);
    if placement.Some? then placement
    else if !Mapped(bytes, patches[i].address, |patches[i].expected|) then Some(BaselineReadFailed)
    else if !Present(bytes, patches[i].address, patches[i].expected) then Some(BaselineMismatch)
    else None
  }

  /** The first fault among the first `n` patches. */
  function FirstFault(identity: ExecutableIdentity, patches: seq<PropertyPatch>, regions: RegionMap, bytes: Contents, n: nat): Option<PatchCode>
    requires n <= |patches|
  {
    if n == 0 then None
    else
      var earlier := FirstFault(identity, patches, regions, bytes, n - 1);
      if earlier.Some? then earlier else PatchFault(identity, patches, regions, bytes, n - 1)
  }

  function PreflightFault(identity: ExecutableIdentity, patches: seq<PropertyPatch>, regions: RegionMap, bytes: Contents): Option<PatchCode> {
    if patches == [] || identity.imageBase == 0 || identity.imageSize == 0 then Some(InvalidPatch)
    else FirstFault(identity, patches, regions, bytes, |patches|)
  }

  /** Some baseline read is reached with everything before it in order. */
  ghost predicate ReadReached(identity: ExecutableIdentity, patches: seq<PropertyPatch>, regions: RegionMap, bytes: Contents) {
    exists i | 0 <= i < |patches| ::
      FirstFault(identity, patches, regions, bytes, i) == None && PlacementFault(identity, patches, regions, i) == None
  }

  function Stage(p: PropertyPatch): Entry {
    Entry(p.identifier, p.address, p.expected, p.replacement)
  }

  function Staged(patches: seq<PropertyPatch>): (entries: seq<Entry>)
    ensures |entries| == |patches|
  {
    seq(|patches|, i requires 0 <= i < |patches| => Stage(patches[i]))
  }

  predicate RegionUsable(region: Option<MemoryRegion>, address: Word, size: nat) {
    && region.Some? && RegionContains(region.value, address, size)
    && region.value.readable && region.value.writable && !region.value.executable
  }

  lemma {:induction false} NoFaultMeansEach(identity: ExecutableIdentity, patches: seq<PropertyPatch>, regions: RegionMap, bytes: Contents, n: nat)
    requires n <= |patches|
    ensures FirstFault(identity, patches, regions, bytes, n) == None <==>
            forall i | 0 <= i < n :: PatchFault(identity, patches, regions, bytes, i) == None
  {
    if n > 0 {
      NoFaultMeansEach(identity, patches, regions, bytes, n - 1);
    }
  }

  ghost predicate PatchClean(identity: ExecutableIdentity, patches: seq<PropertyPatch>, regions: RegionMap, bytes: Contents, i: nat)
    requires i < |patches|
  {
    var e := Stage(patches[i]);
    && EntryOk(e, identity.imageBase, identity.imageSize)
    && (forall j | 0 <= j < i :: Separate(e, Stage(patches[j])))
    && RegionUsable(regions(e.address, |e.original|), e.address, |e.original|)
    && Present(bytes, e.address, e.original)
  }

  lemma CleanMeansNoFault(identity: ExecutableIdentity, patches: seq<PropertyPatch>, regions: RegionMap, bytes: Contents, i: nat)
    requires i < |patches|
    ensures PatchFault(identity, patches, regions, bytes, i) == None <==> PatchClean(identity, patches, regions, bytes, i)
  {
    var p := patches[i];
    assert (exists j | 0 <= j < i :: Collides(p, patches[j])) <==> !(forall j | 0 <= j < i :: Separate(Stage(p), Stage(patches[j]))) by {
      assert forall j | 0 <= j < i :: Collides(p, patches[j]) <==> !Separate(Stage(p), Stage(patches[j]));
    }
  }

  /** Preflight passes exactly when the patches form a non-empty well-formed transaction on the module
      whose ranges are writable data and whose expected bytes are what memory holds. */
  lemma PreflightMeaning(identity: ExecutableIdentity, patches: seq<PropertyPatch>, regions: RegionMap, bytes: Contents)
    ensures PreflightFault(identity, patches, regions, bytes) == None <==>
            && patches != []
            && WellFormed(Staged(patches), identity.imageBase, identity.imageSize)
            && AllOriginal(bytes, Staged(patches))
            && AllUsable(patches, regions)
  {
    NoFaultMeansEach(identity, patches, regions, bytes, |patches|);
    forall i | 0 <= i < |patches|
      ensures PatchFault(identity, patches, regions, bytes, i) == None <==> PatchClean(identity, patches, regions, bytes, i)
    {
      CleanMeansNoFault(identity, patches, regions, bytes, i);
    }
    AllCleanMeaning(identity, patches, regions, bytes);
  }

  predicate AllUsable(patches: seq<PropertyPatch>, regions: RegionMap) {
    forall i | 0 <= i < |patches| ::
      RegionUsable(regions(patches[i].address, |patches[i].expected|), patches[i].address, |patches[i].expected|)
  }

  lemma AllCleanMeaning(identity: ExecutableIdentity, patches: seq<PropertyPatch>, regions: RegionMap, bytes: Contents)
    ensures (forall i | 0 <= i < |patches| :: PatchClean(identity, patches, regions, bytes, i)) <==>
            && WellFormed(Staged(patches), identity.imageBase, identity.imageSize)
            && AllOriginal(bytes, Staged(patches))
            && AllUsable(patches, regions)
    ensures patches != [] && WellFormed(Staged(patches), identity.imageBase, identity.imageSize) ==>
            identity.imageBase != 0 && identity.imageSize != 0
  {
    var staged := Staged(patches);
    assert forall i | 0 <= i < |patches| :: staged[i] == Stage(patches[i]);
    if WellFormed(staged, identity.imageBase, identity.imageSize) && AllOriginal(bytes, staged) && AllUsable(patches, regions) {
      forall i | 0 <= i < |patches|
        ensures PatchClean(identity, patches, regions, bytes, i)
      {
        assert EntryOk(staged[i], identity.imageBase, identity.imageSize);
        forall j | 0 <= j < i ensures Separate(Stage(patches[i]), Stage(patches[j])) {
          assert Separate(staged[i], staged[j]);
        }
      }
    }
    if forall i | 0 <= i < |patches| :: PatchClean(identity, patches, regions, bytes, i) {
      forall i | 0 <= i < |patches|
        ensures EntryOk(staged[i], identity.imageBase, identity.imageSize)
        ensures Present(bytes, staged[i].address, staged[i].original)
        ensures RegionUsable(regions(patches[i].address, |patches[i].expected|), patches[i].address, |patches[i].expected|)
        ensures forall j | 0 <= j < i :: Separate(staged[i], staged[j])
      {
        assert PatchClean(identity, patches, regions, bytes, i);
      }
    }
    if patches != [] && WellFormed(staged, identity.imageBase, identity.imageSize) {
      assert EntryOk(staged[0], identity.imageBase, identity.imageSize);
    }
  }

  // ---- What a finished call says ----

  predicate SamePatches(patches: seq<PropertyPatch>, entries: seq<Entry>) {
    |patches| == |entries| && forall i | 0 <= i < |entries| :: Stage(patches[i]) == entries[i]
  }

  /** Writes issued by an apply that failed at entry `failed`, up to its compensation. */
  function Attempt(entries: seq<Entry>, failed: nat, accepted: bool): seq<WriteCall>
    requires failed < |entries|
  {
    Forward(entries, failed) + [WriteCall(entries[failed].address, entries[failed].replacement, accepted)]
  }

  function Undone(failed: nat, accepted: bool): nat {
    if accepted then failed + 1 else failed
  }

  /** The log of an apply that failed and put everything back, last written entry first. */
  ghost predicate CompensatedLog(before: seq<WriteCall>, after: seq<WriteCall>, entries: seq<Entry>, failed: nat, accepted: bool) {
    && failed < |entries|
    && after == before + Attempt(entries, failed, accepted) + Backward(entries, Undone(failed, accepted), 0)
  }

  /** The log of an apply whose compensation in turn failed at entry `stuck`. */
  ghost predicate AbandonedLog(before: seq<WriteCall>, after: seq<WriteCall>, entries: seq<Entry>, failed: nat, accepted: bool, stuck: nat, last: bool) {
    && failed < |entries|
    && stuck < Undone(failed, accepted)
    && after == before + Attempt(entries, failed, accepted) + Backward(entries, Undone(failed, accepted), stuck + 1)
                + [WriteCall(entries[stuck].address, entries[stuck].original, last)]
  }

  /** Every apply call ends in one of these ways, and its code says which. `refused` is whether a read of mapped
      memory was refused while the call was checking, before it wrote anything. */
  ghost predicate ApplyOutcome(s: Snapshot, rq: ApplyRequest, regions: RegionMap, refused: bool, t: Snapshot, r: PatchResult) {
    && r.state == t.state
    && match GateFault(s.state, rq)
       case Some(code) => t == s && r.code == code && !r.compensation && !refused
       case None =>
         if s.state == Applied then
           && t == s && !r.compensation
           && r.code == if SamePatches(rq.patches, s.entries) && AllReplaced(s.bytes, s.entries) && !refused
                        then AlreadyApplied else JournalConflict
         else if refused then
           && t == s && !r.compensation && r.code == BaselineReadFailed
           && rq.patches != [] && ReadReached(rq.identity, rq.patches, regions, s.bytes)
         else
           FreshApplyOutcome(s, rq, PreflightFault(rq.identity, rq.patches, regions, s.bytes), t, r)
  }

  /** The outcome on a pristine journal whose request passed the gates and whose reads were all answered;
      `fault` is preflight's verdict. */
  ghost predicate FreshApplyOutcome(s: Snapshot, rq: ApplyRequest, fault: Option<PatchCode>, t: Snapshot, r: PatchResult) {
    match r.code
    case CodeApplied | ApplyFailedRolledBack | ApplyFailedRecoveryRequired => fault == None && WriteOutcome(s, rq, t, r)
    case _ => t == s && !r.compensation && fault == Some(r.code)
  }

  /** The outcome of the writing half, once preflight has passed. */
  ghost predicate WriteOutcome(s: Snapshot, rq: ApplyRequest, t: Snapshot, r: PatchResult) {
    match r.code
    case CodeApplied => Committed(s, rq, t, r)
    case ApplyFailedRolledBack => Compensated(s, rq, t, r)
    case ApplyFailedRecoveryRequired => Abandoned(s, rq, t, r)
    case _ => false
  }

  /** Exactly the replacements were written, in order, and memory is the old one overlaid with them. */
  ghost predicate Committed(s: Snapshot, rq: ApplyRequest, t: Snapshot, r: PatchResult) {
    var staged := Staged(rq.patches);
    && !r.compensation
    && t == Snapshot(Applied, rq.identity.imageBase, rq.identity.imageSize, staged, Overlaid(s.bytes, staged),
                     s.writes + Forward(staged, |staged|))
  }

  /** Something was tried and undone: the journal and every byte are as before. */
  ghost predicate Compensated(s: Snapshot, rq: ApplyRequest, t: Snapshot, r: PatchResult) {
    && t == s.(writes := t.writes)
    && exists failed: nat, accepted: bool ::
         CompensatedLog(s.writes, t.writes, Staged(rq.patches), failed, accepted) && r.compensation == (Undone(failed, accepted) != 0)
  }

  /** Compensation itself failed: the transaction is kept, and only its own ranges are in doubt. */
  ghost predicate Abandoned(s: Snapshot, rq: ApplyRequest, t: Snapshot, r: PatchResult) {
    var staged := Staged(rq.patches);
    && r.compensation
    && t == Snapshot(RecoveryRequired, rq.identity.imageBase, rq.identity.imageSize, staged, t.bytes, t.writes)
    && UnchangedOutside(s.bytes, t.bytes, staged, |staged|)
    && exists failed: nat, accepted: bool, stuck: nat, last: bool ::
         AbandonedLog(s.writes, t.writes, staged, failed, accepted, stuck, last)
  }

  ghost predicate StillAppliedLog(before: seq<WriteCall>, after: seq<WriteCall>, entries: seq<Entry>, failed: nat, accepted: bool) {
    && failed < |entries|
    && after == before + Backward(entries, |entries|, failed + 1)
                + [WriteCall(entries[failed].address, entries[failed].original, accepted)]
                + Reapply(entries, |entries|, if accepted then failed else failed + 1)
  }

  ghost predicate StrandedLog(before: seq<WriteCall>, after: seq<WriteCall>, entries: seq<Entry>, failed: nat, accepted: bool, stuck: nat, last: bool) {
    && failed < |entries|
    && (if accepted then failed else failed + 1) <= stuck < |entries|
    && after == before + Backward(entries, |entries|, failed + 1)
                + [WriteCall(entries[failed].address, entries[failed].original, accepted)]
                + Reapply(entries, |entries|, stuck + 1)
                + [WriteCall(entries[stuck].address, entries[stuck].replacement, last)]
  }

  predicate EntryRollable(e: Entry, regions: RegionMap, bytes: Contents) {
    RegionUsable(regions(e.address, |e.replacement|), e.address, |e.replacement|) && Present(bytes, e.address, e.replacement)
  }

  /** Every original is back, written last entry first, and the journal is empty. */
  ghost predicate Unwound(s: Snapshot, t: Snapshot, r: PatchResult) {
    && !r.compensation
    && t.state == Pristine && t.moduleBase == 0 && t.moduleSize == 0 && t.entries == []
    && AllOriginal(t.bytes, s.entries)
    && UnchangedOutside(s.bytes, t.bytes, s.entries, |s.entries|)
    && t.writes == s.writes + Backward(s.entries, |s.entries|, 0)
  }

  /** A restore failed and the ones before it were undone: the journal and every byte are as before. */
  ghost predicate StillApplied(s: Snapshot, t: Snapshot, r: PatchResult) {
    && t == s.(writes := t.writes) && !r.compensation
    && exists failed: nat, accepted: bool :: StillAppliedLog(s.writes, t.writes, s.entries, failed, accepted)
  }

  /** Re-applying failed too: the transaction is kept, and only its own ranges are in doubt. */
  ghost predicate Stranded(s: Snapshot, t: Snapshot, r: PatchResult) {
    && r.compensation
    && t == s.(state := RecoveryRequired, bytes := t.bytes, writes := t.writes)
    && UnchangedOutside(s.bytes, t.bytes, s.entries, |s.entries|)
    && exists failed: nat, accepted: bool, stuck: nat, last: bool ::
         StrandedLog(s.writes, t.writes, s.entries, failed, accepted, stuck, last)
  }

  predicate AllEntriesRollable(entries: seq<Entry>, regions: RegionMap, bytes: Contents) {
    forall i | 0 <= i < |entries| :: EntryRollable(entries[i], regions, bytes)
  }

  /** Every rollback call ends in one of these ways, and its code says which; `refused` is as for an apply. */
  ghost predicate RollbackOutcome(s: Snapshot, regions: RegionMap, refused: bool, t: Snapshot, r: PatchResult) {
    && r.state == t.state
    && match s.state
       case Pristine => t == s && r.code == AlreadyPristine && !r.compensation && !refused
       case RecoveryRequired => t == s && r.code == RollbackFailedRecoveryRequired && !r.compensation && !refused
       case Applied =>
         if refused || !AllEntriesRollable(s.entries, regions, s.bytes) then
           t == s && r.code == RollbackBaselineMismatch && !r.compensation
         else UnwindOutcome(s, t, r)
  }

  /** The outcome of the writing half of a rollback. */
  ghost predicate UnwindOutcome(s: Snapshot, t: Snapshot, r: PatchResult) {
    match r.code
    case RolledBack => Unwound(s, t, r)
    case RollbackFailedStillApplied => StillApplied(s, t, r)
    case RollbackFailedRecoveryRequired => Stranded(s, t, r)
    case _ => false
  }

  /** The request is past its gates, and is the applied transaction with its replacements in memory. */
  ghost predicate Repeats(s: Snapshot, rq: ApplyRequest) {
    && s.state == Applied && GateFault(Applied, rq) == None
    && SamePatches(rq.patches, s.entries) && AllReplaced(s.bytes, s.entries)
  }

  /** The request is past its gates and its preflight, on a pristine journal. */
  predicate Passes(s: Snapshot, rq: ApplyRequest, regions: RegionMap) {
    && s.state == Pristine && GateFault(Pristine, rq) == None
    && PreflightFault(rq.identity, rq.patches, regions, s.bytes) == None
  }

  /** The code an apply returns on an adapter that never fails. */
  function FaithfulApplyCode(s: Snapshot, rq: ApplyRequest, regions: RegionMap): PatchCode {
    match GateFault(s.state, rq)
    case Some(code) => code
    case None =>
      if s.state == Applied then
        if SamePatches(rq.patches, s.entries) && (forall i | 0 <= i < |s.entries| :: Present(s.bytes, s.entries[i].address, s.entries[i].replacement))
        then AlreadyApplied else JournalConflict
      else
        match PreflightFault(rq.identity, rq.patches, regions, s.bytes)
        case Some(code) => code
        case None => CodeApplied
  }

  function FaithfulRollbackCode(s: Snapshot, regions: RegionMap): PatchCode {
    match s.state
    case Pristine => AlreadyPristine
    case RecoveryRequired => RollbackFailedRecoveryRequired
    case Applied =>
      if AllEntriesRollable(s.entries, regions, s.bytes) then RolledBack
      else RollbackBaselineMismatch
  }

  /** Pristine journals are empty; the others hold a non-empty well-formed transaction. */
  ghost predicate Consistent(state: PatchState, moduleBase: Word, moduleSize: Word, entries: seq<Entry>) {
    if state == Pristine then entries == [] && moduleBase == 0 && moduleSize == 0
    else entries != [] && WellFormed(entries, moduleBase, moduleSize)
  }

  // ---- The journal ----

  method MaximumReplacement(entries: seq<Entry>) returns (maximum: nat)
    ensures forall i | 0 <= i < |entries| :: |entries[i].replacement| <= maximum
    ensures maximum == 0 || exists i | 0 <= i < |entries| :: |entries[i].replacement| == maximum
  {
    maximum := 0;
    for i := 0 to |entries|
      invariant forall j | 0 <= j < i :: |entries[j].replacement| <= maximum
      invariant maximum == 0 || exists j | 0 <= j < i :: |entries[j].replacement| == maximum
    {
      if maximum < |entries[i].replacement| {
        maximum := |entries[i].replacement|;
      }
    }
  }

  /** Check every patch in order, and stage the ones that pass, without writing anything. */
  method StagePatches(identity: ExecutableIdentity, patches: seq<PropertyPatch>, memory: MemoryView)
    returns (fault: Option<PatchCode>, staged: seq<Entry>, ghost refused: bool)
    ensures fault == if refused then Some(BaselineReadFailed) else FirstFault(identity, patches, memory.regions, memory.bytes, |patches|)
    ensures refused ==> ReadReached(identity, patches, memory.regions, memory.bytes)
    ensures memory.temper.Faithful? || memory.temper.Spoiling? ==> !refused
    ensures fault == None ==> staged == Staged(patches)
  {
    staged, refused := [], false;
    for index := 0 to |patches|
      invariant !refused
      invariant FirstFault(identity, patches, memory.regions, memory.bytes, index) == None
      invariant staged == Staged(patches)[..index]
    {
      FirstFaultPersists(identity, patches, memory.regions, memory.bytes, index + 1);
      var patch := patches[index];
      if patch.identifier == "" || patch.expected == [] || |patch.expected| != |patch.replacement|
         || patch.expected == patch.replacement {
        return Some(InvalidPatch), [], false;
      }
      for prior := 0 to index
        invariant forall j | 0 <= j < prior :: !Collides(patch, patches[j])
      {
        if patch.identifier == patches[prior].identifier
           || RangesOverlap(patch.address, |patch.expected|, patches[prior].address, |patches[prior].expected|) {
          assert Collides(patch, patches[prior]);
          return Some(InvalidPatch), [], false;
        }
      }
      if !Contains(identity.imageBase, identity.imageSize, patch.address, |patch.expected|) {
        return Some(PatchOutsideModule), [], false;
      }
      var region := memory.QueryRegion(patch.address, |patch.expected|);
      if region == None || !RegionContains(region.value, patch.address, |patch.expected|) {
        return Some(PatchRegionUnavailable), [], false;
      }
      if !region.value.readable {
        return Some(PatchRegionNotReadable), [], false;
      }
      if !region.value.writable {
        return Some(RegionNotWritable), [], false;
      }
      if region.value.executable {
        return Some(ExecutableRegionRejected), [], false;
      }
      var observed;
      observed, refused := memory.Read(patch.address, |patch.expected|);
      if observed == None {
        return Some(BaselineReadFailed), [], refused;
      }
      if observed.value != patch.expected {
        assert !Present(memory.bytes, patch.address, patch.expected) by {
          SameBytes(memory.bytes, patch.address, observed.value, patch.expected);
        }
        return Some(BaselineMismatch), [], false;
      }
      staged := staged + [Entry(patch.identifier, patch.address, observed.value, patch.replacement)];
    }
    fault := None;
  }

  lemma SameBytes(bytes: Contents, address: int, a: seq<byte>, b: seq<byte>)
    requires |a| == |b| && Present(bytes, address, a)
    ensures Present(bytes, address, b) ==> a == b
  {
    if Present(bytes, address, b) {
      forall i | 0 <= i < |a| ensures a[i] == b[i] {
        assert bytes[address + i] == a[address + i - address];
      }
    }
  }

  /** A fault among the first `n` patches is the verdict on the whole list. */
  lemma {:induction false} FirstFaultPersists(identity: ExecutableIdentity, patches: seq<PropertyPatch>, regions: RegionMap, bytes: Contents, n: nat)
    requires n <= |patches|
    ensures FirstFault(identity, patches, regions, bytes, n).Some? ==>
            FirstFault(identity, patches, regions, bytes, |patches|) == FirstFault(identity, patches, regions, bytes, n)
    decreases |patches| - n
  {
    if n < |patches| {
      FirstFaultPersists(identity, patches, regions, bytes, n + 1);
    }
  }

  /** Write every replacement in order, reading each one back, until one fails. */
  method WriteReplacements(staged: seq<Entry>, memory: MemoryView, capacity: nat, ghost moduleBase: Word, ghost moduleSize: Word)
    returns (failed: nat, accepted: bool)
    requires WellFormed(staged, moduleBase, moduleSize)
    requires AllOriginal(memory.bytes, staged)
    requires forall i | 0 <= i < |staged| :: |staged[i].replacement| <= capacity
    modifies memory`bytes, memory`writes
    ensures failed <= |staged|
    ensures failed == |staged| ==>
              && UnchangedOutside(old(memory.bytes), memory.bytes, staged, |staged|)
              && AllReplaced(memory.bytes, staged)
              && memory.writes == old(memory.writes) + Forward(staged, |staged|)
    ensures failed < |staged| ==>
              && !memory.temper.Faithful?
              && UnchangedOutside(old(memory.bytes), memory.bytes, staged, Undone(failed, accepted))
              && memory.writes == old(memory.writes) + Attempt(staged, failed, accepted)
    ensures memory.temper.Spoiling? && staged != [] ==> failed == 0 && accepted
  {
    ghost var base, log := memory.bytes, memory.writes;
    var index: nat := 0;
    while index < |staged|
      invariant index <= |staged|
      invariant memory.writes == log + Forward(staged, index)
      invariant UnchangedOutside(base, memory.bytes, staged, index)
      invariant ShowReplacements(memory.bytes, staged, 0, index)
      invariant ShowOriginals(memory.bytes, staged, index, |staged|)
      invariant memory.temper.Spoiling? ==> index == 0
    {
      var wrote, readBack := WriteOne(staged, memory, capacity, index, base, moduleBase, moduleSize);
      ForwardStep(log, staged, index);
      if !wrote || !readBack {
        return index, wrote;
      }
      index := index + 1;
    }
    return index, true;
  }

  lemma ForwardStep(log: seq<WriteCall>, entries: seq<Entry>, n: nat)
    requires n < |entries|
    ensures log + Forward(entries, n) + [WriteCall(entries[n].address, entries[n].replacement, true)] == log + Forward(entries, n + 1)
    ensures forall accepted :: log + Forward(entries, n) + [WriteCall(entries[n].address, entries[n].replacement, accepted)]
                               == log + Attempt(entries, n, accepted)
  {
  }

  /** One replacement write and its read-back. */
  method WriteOne(staged: seq<Entry>, memory: MemoryView, capacity: nat, index: nat,
                  ghost base: Contents, ghost moduleBase: Word, ghost moduleSize: Word)
    returns (wrote: bool, readBack: bool)
    requires WellFormed(staged, moduleBase, moduleSize) && index < |staged|
    requires |staged[index].replacement| <= capacity
    requires UnchangedOutside(base, memory.bytes, staged, index)
    requires ShowReplacements(memory.bytes, staged, 0, index)
    requires ShowOriginals(memory.bytes, staged, index, |staged|)
    modifies memory`bytes, memory`writes
    ensures memory.writes == old(memory.writes) + [WriteCall(staged[index].address, staged[index].replacement, wrote)]
    ensures UnchangedOutside(base, memory.bytes, staged, if wrote then index + 1 else index)
    ensures wrote && readBack ==> ShowReplacements(memory.bytes, staged, 0, index + 1)
    ensures wrote && readBack ==> ShowOriginals(memory.bytes, staged, index + 1, |staged|)
    ensures memory.temper.Faithful? ==> wrote && readBack
    ensures memory.temper.Spoiling? ==> wrote && !readBack
  {
    var entry := staged[index];
    ghost var before := memory.bytes;
    assert EntryOk(entry, moduleBase, moduleSize);
    assert Mapped(before, entry.address, |entry.replacement|) by {
      assert Present(before, entry.address, entry.original);
    }
    wrote := memory.Write(entry.address, entry.replacement);
    ReplacementsKept(staged, moduleBase, moduleSize, before, memory.bytes, index, 0, index);
    OriginalsKept(staged, moduleBase, moduleSize, before, memory.bytes, index, index + 1, |staged|);
    WiderOutside(base, before, staged, index, index + 1);
    StillOutside(staged, base, before, memory.bytes, index, index + 1);
    readBack := false;
    if wrote {
      var shown, _ := ReadEquals(memory, entry.address, entry.replacement, capacity);
      readBack := shown;
    }
  }

  /** One compensating write of an original and its read-back. */
  method RestoreOne(staged: seq<Entry>, memory: MemoryView, capacity: nat, index: nat, ghost from: nat,
                    ghost base: Contents, ghost moduleBase: Word, ghost moduleSize: Word)
    returns (wrote: bool, readBack: bool)
    requires WellFormed(staged, moduleBase, moduleSize) && index < from <= |staged|
    requires |staged[index].replacement| <= capacity
    requires UnchangedOutside(base, memory.bytes, staged, from)
    requires ShowOriginals(memory.bytes, staged, index + 1, from)
    requires Mapped(base, staged[index].address, |staged[index].original|)
    modifies memory`bytes, memory`writes
    ensures memory.writes == old(memory.writes) + [WriteCall(staged[index].address, staged[index].original, wrote)]
    ensures UnchangedOutside(base, memory.bytes, staged, from)
    ensures ShowOriginals(memory.bytes, staged, index + 1, from)
    ensures !wrote ==> memory.bytes == old(memory.bytes) && !readBack
    ensures UnchangedOutsideRange(old(memory.bytes), memory.bytes, staged[index].address, |staged[index].original|)
    ensures wrote && readBack ==> ShowOriginals(memory.bytes, staged, index, from)
    ensures memory.temper.Faithful? ==> wrote && readBack
    ensures memory.temper.Spoiling? ==> wrote && !readBack
  {
    var entry := staged[index];
    ghost var before := memory.bytes;
    assert EntryOk(entry, moduleBase, moduleSize);
    wrote := memory.Write(entry.address, entry.original);
    OriginalsKept(staged, moduleBase, moduleSize, before, memory.bytes, index, index + 1, from);
    StillOutside(staged, base, before, memory.bytes, index, from);
    readBack := false;
    if wrote {
      var shown, _ := ReadEquals(memory, entry.address, entry.original, capacity);
      readBack := shown;
    }
  }

  lemma BackwardStep(log: seq<WriteCall>, entries: seq<Entry>, from: nat, to: nat)
    requires to < from <= |entries|
    ensures log + Backward(entries, from, to + 1) + [WriteCall(entries[to].address, entries[to].original, true)]
            == log + Backward(entries, from, to)
  {
  }

  /** Put the originals of the first `from` entries back, last one first, until one write fails. */
  method RestoreOriginals(staged: seq<Entry>, memory: MemoryView, capacity: nat, from: nat,
                          ghost base: Contents, ghost moduleBase: Word, ghost moduleSize: Word)
    returns (restored: bool, ghost stuck: nat, ghost accepted: bool)
    requires WellFormed(staged, moduleBase, moduleSize)
    requires from <= |staged|
    requires UnchangedOutside(base, memory.bytes, staged, from)
    requires AllOriginal(base, staged)
    requires forall i | 0 <= i < |staged| :: |staged[i].replacement| <= capacity
    modifies memory`bytes, memory`writes
    ensures UnchangedOutside(base, memory.bytes, staged, |staged|)
    ensures restored ==> memory.bytes == base && memory.writes == old(memory.writes) + Backward(staged, from, 0)
    ensures !restored ==>
              && stuck < from
              && memory.writes == old(memory.writes) + Backward(staged, from, stuck + 1)
                 + [WriteCall(staged[stuck].address, staged[stuck].original, accepted)]
    ensures memory.temper.Spoiling? && from > 0 ==> !restored
  {
    ghost var log := memory.writes;
    stuck, accepted := 0, true;
    var count: nat := from;
    while count > 0
      invariant count <= from
      invariant memory.writes == log + Backward(staged, from, count)
      invariant UnchangedOutside(base, memory.bytes, staged, from)
      invariant ShowOriginals(memory.bytes, staged, count, from)
      invariant memory.temper.Spoiling? ==> count == from
    {
      assert Present(base, staged[count - 1].address, staged[count - 1].original);
      var wrote, readBack := RestoreOne(staged, memory, capacity, count - 1, from, base, moduleBase, moduleSize);
      BackwardStep(log, staged, from, count - 1);
      if !wrote || !readBack {
        WiderOutside(base, memory.bytes, staged, from, |staged|);
        return false, count - 1, wrote;
      }
      count := count - 1;
    }
    OriginalsRestore(staged, base, memory.bytes, from);
    WiderOutside(base, memory.bytes, staged, from, |staged|);
    restored := true;
  }

  /** How the writing half of an apply ended: all written, all put back, or stuck while putting back. */
  datatype WriteEnd = Written | PutBack(undone: nat) | Stuck

  ghost predicate Ended(end: WriteEnd, staged: seq<Entry>, before: Contents, log: seq<WriteCall>, after: Contents, longer: seq<WriteCall>) {
    match end
    case Written => after == Overlaid(before, staged) && longer == log + Forward(staged, |staged|)
    case PutBack(undone) =>
      && after == before
      && exists failed: nat, accepted: bool :: CompensatedLog(log, longer, staged, failed, accepted) && undone == Undone(failed, accepted)
    case Stuck =>
      && UnchangedOutside(before, after, staged, |staged|)
      && exists failed: nat, accepted: bool, stuck: nat, last: bool ::
           AbandonedLog(log, longer, staged, failed, accepted, stuck, last)
  }

  /** What the end of the writing half makes of journal and result. */
  lemma EndTells(s: Snapshot, rq: ApplyRequest, end: WriteEnd, t: Snapshot, r: PatchResult)
    requires Ended(end, Staged(rq.patches), s.bytes, s.writes, t.bytes, t.writes)
    requires end.PutBack? ==> t == s.(bytes := t.bytes, writes := t.writes) && r == PatchResult(ApplyFailedRolledBack, Pristine, end.undone != 0)
    requires !end.PutBack? ==>
               t == Snapshot(if end.Stuck? then RecoveryRequired else Applied, rq.identity.imageBase, rq.identity.imageSize,
                             Staged(rq.patches), t.bytes, t.writes)
    requires end.Stuck? ==> r == PatchResult(ApplyFailedRecoveryRequired, RecoveryRequired, true)
    requires end.Written? ==> r == PatchResult(CodeApplied, Applied, false)
    ensures WriteOutcome(s, rq, t, r)
  {
  }

  /** Write every replacement; when one fails, put the originals of what was written back. */
  method WriteAll(staged: seq<Entry>, memory: MemoryView, capacity: nat, ghost moduleBase: Word, ghost moduleSize: Word)
    returns (end: WriteEnd)
    requires WellFormed(staged, moduleBase, moduleSize)
    requires AllOriginal(memory.bytes, staged)
    requires forall i | 0 <= i < |staged| :: |staged[i].replacement| <= capacity
    modifies memory`bytes, memory`writes
    ensures Ended(end, staged, old(memory.bytes), old(memory.writes), memory.bytes, memory.writes)
    ensures memory.temper.Faithful? ==> end.Written?
    ensures memory.temper.Spoiling? && staged != [] ==> end.Stuck?
  {
    ghost var base, log := memory.bytes, memory.writes;
    var failed, accepted := WriteReplacements(staged, memory, capacity, moduleBase, moduleSize);
    if failed == |staged| {
      OverlaidIsUnique(staged, base, memory.bytes, moduleBase, moduleSize);
      return Written;
    }
    var from := if accepted then failed + 1 else failed;
    var restored, stuck, last := RestoreOriginals(staged, memory, capacity, from, base, moduleBase, moduleSize);
    if restored {
      assert CompensatedLog(log, memory.writes, staged, failed, accepted);
      return PutBack(from);
    }
    assert AbandonedLog(log, memory.writes, staged, failed, accepted, stuck, last);
    end := Stuck;
  }

  /** The indices `from - 1` down to `to`. */
  function Descending(from: nat, to: nat): (indices: seq<nat>)
    requires to <= from
    ensures |indices| == from - to
  {
    seq(from - to, i requires 0 <= i < from - to => from - 1 - i)
  }

  lemma ReapplyStep(log: seq<WriteCall>, entries: seq<Entry>, from: nat, to: nat)
    requires to < from <= |entries|
    ensures log + Reapply(entries, from, to + 1) + [WriteCall(entries[to].address, entries[to].replacement, true)]
            == log + Reapply(entries, from, to)
  {
  }

  /** Write the replacements of the restored entries again, in the order they were restored. */
  method ReapplyAll(entries: seq<Entry>, memory: MemoryView, capacity: nat, restored: seq<nat>, ghost floor: nat,
                    ghost base: Contents, ghost moduleBase: Word, ghost moduleSize: Word)
    returns (reapplied: bool, ghost stuck: nat, ghost accepted: bool)
    requires WellFormed(entries, moduleBase, moduleSize)
    requires floor <= |entries| && restored == Descending(|entries|, floor)
    requires AllReplaced(base, entries)
    requires UnchangedOutside(base, memory.bytes, entries, |entries|)
    requires ShowReplacements(memory.bytes, entries, 0, floor)
    requires forall i | 0 <= i < |entries| :: |entries[i].replacement| <= capacity
    modifies memory`bytes, memory`writes
    ensures UnchangedOutside(base, memory.bytes, entries, |entries|)
    ensures reapplied ==> memory.bytes == base && memory.writes == old(memory.writes) + Reapply(entries, |entries|, floor)
    ensures !reapplied ==>
              && floor <= stuck < |entries|
              && memory.writes == old(memory.writes) + Reapply(entries, |entries|, stuck + 1)
                 + [WriteCall(entries[stuck].address, entries[stuck].replacement, accepted)]
  {
    ghost var log := memory.writes;
    stuck, accepted := 0, true;
    var done: nat := 0;
    while done < |restored|
      invariant done <= |restored|
      invariant memory.writes == log + Reapply(entries, |entries|, |entries| - done)
      invariant UnchangedOutside(base, memory.bytes, entries, |entries|)
      invariant ShowReplacements(memory.bytes, entries, 0, floor)
      invariant ShowReplacements(memory.bytes, entries, |entries| - done, |entries|)
    {
      var index := restored[done];
      assert index == |entries| - 1 - done;
      var wrote, readBack := ReapplyOne(entries, memory, capacity, index, floor, base, moduleBase, moduleSize);
      ReapplyStep(log, entries, |entries|, index);
      if !wrote || !readBack {
        return false, index, wrote;
      }
      done := done + 1;
    }
    assert AllReplaced(memory.bytes, entries);
    ReplacementsRestore(entries, base, memory.bytes);
    reapplied := true;
  }

  /** One re-applying write of a replacement and its read-back. */
  method ReapplyOne(entries: seq<Entry>, memory: MemoryView, capacity: nat, index: nat, ghost floor: nat,
                    ghost base: Contents, ghost moduleBase: Word, ghost moduleSize: Word)
    returns (wrote: bool, readBack: bool)
    requires WellFormed(entries, moduleBase, moduleSize) && floor <= index < |entries|
    requires |entries[index].replacement| <= capacity
    requires UnchangedOutside(base, memory.bytes, entries, |entries|)
    requires ShowReplacements(memory.bytes, entries, 0, floor)
    requires ShowReplacements(memory.bytes, entries, index + 1, |entries|)
    modifies memory`bytes, memory`writes
    ensures memory.writes == old(memory.writes) + [WriteCall(entries[index].address, entries[index].replacement, wrote)]
    ensures UnchangedOutside(base, memory.bytes, entries, |entries|)
    ensures ShowReplacements(memory.bytes, entries, 0, floor)
    ensures wrote && readBack ==> ShowReplacements(memory.bytes, entries, index, |entries|)
  {
    var entry := entries[index];
    ghost var before := memory.bytes;
    assert EntryOk(entry, moduleBase, moduleSize);
    wrote := memory.Write(entry.address, entry.replacement);
    ReplacementsKept(entries, moduleBase, moduleSize, before, memory.bytes, index, 0, floor);
    ReplacementsKept(entries, moduleBase, moduleSize, before, memory.bytes, index, index + 1, |entries|);
    StillOutside(entries, base, before, memory.bytes, index, |entries|);
    readBack := false;
    if wrote {
      var shown, _ := ReadEquals(memory, entry.address, entry.replacement, capacity);
      readBack := shown;
    }
  }

  /** Put every original back, last entry first; when one fails, re-apply the ones already restored. */
  method RestoreAll(entries: seq<Entry>, memory: MemoryView, capacity: nat, ghost moduleBase: Word, ghost moduleSize: Word)
    returns (allRestored: bool, allReapplied: bool)
    requires WellFormed(entries, moduleBase, moduleSize)
    requires forall i | 0 <= i < |entries| :: |entries[i].replacement| <= capacity
    requires AllReplaced(memory.bytes, entries)
    modifies memory`bytes, memory`writes
    ensures UnchangedOutside(old(memory.bytes), memory.bytes, entries, |entries|)
    ensures allRestored ==>
              AllOriginal(memory.bytes, entries) && memory.writes == old(memory.writes) + Backward(entries, |entries|, 0)
    ensures !allRestored && allReapplied ==>
              && memory.bytes == old(memory.bytes)
              && exists failed: nat, accepted: bool :: StillAppliedLog(old(memory.writes), memory.writes, entries, failed, accepted)
    ensures !allRestored && !allReapplied ==>
              exists failed: nat, accepted: bool, stuck: nat, last: bool ::
                StrandedLog(old(memory.writes), memory.writes, entries, failed, accepted, stuck, last)
    ensures memory.temper.Faithful? ==> allRestored
  {
    ghost var base, log := memory.bytes, memory.writes;
    var restored: seq<nat> := [];
    var count: nat := |entries|;
    while count > 0
      invariant count <= |entries|
      invariant restored == Descending(|entries|, count)
      invariant memory.writes == log + Backward(entries, |entries|, count)
      invariant UnchangedOutside(base, memory.bytes, entries, |entries|)
      invariant ShowOriginals(memory.bytes, entries, count, |entries|)
      invariant ShowReplacements(memory.bytes, entries, 0, count)
    {
      var index := count - 1;
      ghost var before := memory.bytes;
      assert Mapped(base, entries[index].address, |entries[index].original|) by {
        assert Present(base, entries[index].address, entries[index].replacement);
        assert EntryOk(entries[index], moduleBase, moduleSize);
      }
      var wrote, readBack := RestoreOne(entries, memory, capacity, index, |entries|, base, moduleBase, moduleSize);
      ReplacementsKept(entries, moduleBase, moduleSize, before, memory.bytes, index, 0, index);
      BackwardStep(log, entries, |entries|, index);
      if wrote {
        restored := restored + [index];
      }
      if !wrote || !readBack {
        var reapplied, stuck, last := ReapplyAll(entries, memory, capacity, restored, if wrote then index else count,
                                                 base, moduleBase, moduleSize);
        assert reapplied ==> StillAppliedLog(log, memory.writes, entries, index, wrote);
        assert !reapplied ==> StrandedLog(log, memory.writes, entries, index, wrote, stuck, last);
        return false, reapplied;
      }
      count := index;
    }
    return true, false;
  }

  class Journal {
    var state: PatchState
    var moduleBase: Word
    var moduleSize: Word
    var entries: seq<Entry>

    constructor ()
      ensures Valid() && state == Pristine
    {
      state, moduleBase, moduleSize, entries := Pristine, 0, 0, [];
    }

    ghost predicate Valid()
      reads this
    {
      Consistent(state, moduleBase, moduleSize, entries)
    }

    /** The journal and the memory it is about to be used on. */
    ghost function View(memory: MemoryView): Snapshot
      reads this, memory
    {
      Snapshot(state, moduleBase, moduleSize, entries, memory.bytes, memory.writes)
    }

    method Result(code: PatchCode, compensation: bool := false) returns (result: PatchResult)
      ensures result == PatchResult(code, state, compensation)
    {
      result := PatchResult(code, state, compensation);
    }

    method Apply(rq: ApplyRequest, memory: MemoryView) returns (result: PatchResult, ghost refused: bool)
      requires Valid()
      modifies this, memory`bytes, memory`writes
      ensures Valid()
      ensures ApplyOutcome(old(View(memory)), rq, memory.regions, refused, View(memory), result)
      ensures memory.temper.Faithful? ==> result.code == FaithfulApplyCode(old(View(memory)), rq, memory.regions)
      ensures memory.temper.Faithful? || memory.temper.Spoiling? ==> !refused
      ensures memory.temper.Deaf? && Repeats(old(View(memory)), rq) ==> refused
      ensures memory.temper.Spoiling? && Passes(old(View(memory)), rq, memory.regions) ==> result.code == ApplyFailedRecoveryRequired
    {
      refused := false;
      hide Committed, Compensated, Abandoned, MatchesSupportedRuntime, FirstFault, ReadReached;
      if !rq.prerequisites.featureGate {
        result := Result(FeatureGateDisabled);
        return;
      }
      if !rq.prerequisites.lifecyclePermitted {
        result := Result(LifecycleMutationDenied);
        return;
      }
      if !MatchesSupportedRuntime(rq.lists, rq.identity, rq.prerequisites.runtime) {
        result := Result(RuntimeNotAdmitted);
        return;
      }
      if rq.prerequisites.capability.state == Unavailable || rq.prerequisites.capability.diagnostic != NoDiagnostic {
        result := Result(CapabilityUnavailable);
        return;
      }
      if state == RecoveryRequired {
        result := Result(JournalConflict);
        return;
      }
      if state == Applied {
        var same;
        same, refused := StillHolds(rq.patches, memory);
        result := Result(if same then AlreadyApplied else JournalConflict);
        return;
      }
      if rq.patches == [] || rq.identity.imageBase == 0 || rq.identity.imageSize == 0 {
        result := Result(InvalidPatch);
        return;
      }
      var fault, staged;
      fault, staged, refused := StagePatches(rq.identity, rq.patches, memory);
      if fault.Some? {
        StagingFaults(rq.identity, rq.patches, memory.regions, memory.bytes, |rq.patches|);
        result := Result(fault.value);
        return;
      }
      result := Commit(rq, staged, memory);
    }

    /** Whether the applied transaction is the one asked for and its replacements are still in memory. */
    method StillHolds(patches: seq<PropertyPatch>, memory: MemoryView) returns (same: bool, ghost refused: bool)
      requires forall i | 0 <= i < |entries| :: |entries[i].original| == |entries[i].replacement|
      ensures same <==> SamePatches(patches, entries) && AllReplaced(memory.bytes, entries) && !refused
      ensures memory.temper.Faithful? || memory.temper.Spoiling? ==> !refused
      ensures memory.temper.Deaf? && entries != [] && SamePatches(patches, entries) && AllReplaced(memory.bytes, entries) ==> refused
    {
      refused := false;
      if |patches| != |entries| {
        return false, false;
      }
      var capacity := MaximumReplacement(entries);
      for index := 0 to |entries|
        invariant forall j | 0 <= j < index :: Stage(patches[j]) == entries[j]
        invariant forall j | 0 <= j < index :: Present(memory.bytes, entries[j].address, entries[j].replacement)
        invariant !refused && (memory.temper.Deaf? ==> index == 0)
      {
        var entry, patch := entries[index], patches[index];
        if patch.identifier != entry.identifier || patch.address != entry.address
           || patch.expected != entry.original || patch.replacement != entry.replacement {
          assert Stage(patch) != entry;
          return false, false;
        }
        var readBack;
        readBack, refused := ReadEquals(memory, entry.address, entry.replacement, capacity);
        if !readBack {
          return false, refused;
        }
      }
      same := true;
    }

    /** The writing half of an apply whose preflight passed. */
    method Commit(rq: ApplyRequest, staged: seq<Entry>, memory: MemoryView) returns (result: PatchResult)
      requires Valid() && state == Pristine
      requires PreflightFault(rq.identity, rq.patches, memory.regions, memory.bytes) == None
      requires staged == Staged(rq.patches)
      modifies this, memory`bytes, memory`writes
      ensures Valid()
      ensures result.state == state
      ensures WriteOutcome(old(View(memory)), rq, View(memory), result)
      ensures memory.temper.Faithful? ==> result.code == CodeApplied
      ensures memory.temper.Spoiling? ==> result.code == ApplyFailedRecoveryRequired
    {
      PreflightMeaning(rq.identity, rq.patches, memory.regions, memory.bytes);
      hide PreflightFault, AllUsable, WriteOutcome, WellFormed, ShowOriginals, Ended;
      ghost var s := View(memory);
      var capacity := MaximumReplacement(staged);
      var end := WriteAll(staged, memory, capacity, rq.identity.imageBase, rq.identity.imageSize);
      if end.PutBack? {
        result := PatchResult(ApplyFailedRolledBack, Pristine, end.undone != 0);
      } else {
        entries, moduleBase, moduleSize := staged, rq.identity.imageBase, rq.identity.imageSize;
        state := if end.Stuck? then RecoveryRequired else Applied;
        result := PatchResult(if end.Stuck? then ApplyFailedRecoveryRequired else CodeApplied, state, end.Stuck?);
      }
      EndTells(s, rq, end, View(memory), result);
    }

    method Rollback(memory: MemoryView) returns (result: PatchResult, ghost refused: bool)
      requires Valid()
      modifies this, memory`bytes, memory`writes
      ensures Valid()
      ensures RollbackOutcome(old(View(memory)), memory.regions, refused, View(memory), result)
      ensures memory.temper.Faithful? ==> result.code == FaithfulRollbackCode(old(View(memory)), memory.regions)
      ensures memory.temper.Faithful? || memory.temper.Spoiling? ==> !refused
    {
      hide Unwound, StillApplied, Stranded;
      refused := false;
      if state == Pristine {
        result := Result(AlreadyPristine);
        return;
      }
      if state == RecoveryRequired || entries == [] {
        result := Result(RollbackFailedRecoveryRequired);
        return;
      }
      var capacity := MaximumReplacement(entries);
      var rollable;
      rollable, refused := AllRollable(memory, capacity);
      if !rollable {
        result := Result(RollbackBaselineMismatch);
        return;
      }
      result := Unwind(memory, capacity);
    }

    /** Whether every entry can still be rolled back: usable region, replacement still in memory. */
    method AllRollable(memory: MemoryView, capacity: nat) returns (rollable: bool, ghost refused: bool)
      requires Valid() && state == Applied
      requires forall i | 0 <= i < |entries| :: |entries[i].replacement| <= capacity
      ensures rollable <==> AllEntriesRollable(entries, memory.regions, memory.bytes) && !refused
      ensures memory.temper.Faithful? || memory.temper.Spoiling? ==> !refused
    {
      refused := false;
      for i := 0 to |entries|
        invariant !refused
        invariant forall j | 0 <= j < i :: EntryRollable(entries[j], memory.regions, memory.bytes)
      {
        var entry := entries[i];
        assert EntryOk(entry, moduleBase, moduleSize);
        if !Contains(moduleBase, moduleSize, entry.address, |entry.replacement|) {
          return false, false;
        }
        var region := memory.QueryRegion(entry.address, |entry.replacement|);
        if region == None || !RegionContains(region.value, entry.address, |entry.replacement|)
           || !region.value.readable || !region.value.writable || region.value.executable {
          assert !EntryRollable(entry, memory.regions, memory.bytes);
          return false, false;
        }
        var readBack;
        readBack, refused := ReadEquals(memory, entry.address, entry.replacement, capacity);
        if !readBack {
          assert !refused ==> !EntryRollable(entry, memory.regions, memory.bytes);
          return false, refused;
        }
      }
      rollable := true;
    }

    /** The writing half of a rollback whose checks passed. */
    method Unwind(memory: MemoryView, capacity: nat) returns (result: PatchResult)
      requires Valid() && state == Applied
      requires forall i | 0 <= i < |entries| :: |entries[i].replacement| <= capacity
      requires AllReplaced(memory.bytes, entries)
      modifies this, memory`bytes, memory`writes
      ensures Valid()
      ensures result.state == state
      ensures UnwindOutcome(old(View(memory)), View(memory), result)
      ensures memory.temper.Faithful? ==> result.code == RolledBack
    {
      var restored, reapplied := RestoreAll(entries, memory, capacity, moduleBase, moduleSize);
      if restored {
        entries, moduleBase, moduleSize := [], 0, 0;
        state := Pristine;
        result := Result(RolledBack);
      } else if reapplied {
        state := Applied;
        result := Result(RollbackFailedStillApplied);
      } else {
        state := RecoveryRequired;
        result := Result(RollbackFailedRecoveryRequired, true);
      }
    }
  }

  /** Preflight only ever reports one of its own codes. */
  lemma {:induction false} StagingFaults(identity: ExecutableIdentity, patches: seq<PropertyPatch>, regions: RegionMap, bytes: Contents, n: nat)
    requires n <= |patches|
    ensures FirstFault(identity, patches, regions, bytes, n) in
            {None, Some(InvalidPatch), Some(PatchOutsideModule), Some(PatchRegionUnavailable), Some(PatchRegionNotReadable),
             Some(RegionNotWritable), Some(ExecutableRegionRejected), Some(BaselineReadFailed), Some(BaselineMismatch)}
  {
    if n > 0 {
      StagingFaults(identity, patches, regions, bytes, n - 1);
    }
  }
}
