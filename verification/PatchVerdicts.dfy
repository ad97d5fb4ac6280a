/** What each code of the patch journal says about the request, the memory and the adapter, over any call the
    journal can make. */
module PatchVerdicts {
  import opened Words
  import opened Memory
  import opened EngineBridge
  import opened PatchEntries
  import opened PatchJournal
  import opened PatchRuns

  // ---- The gates ----

  /** Nothing is written, no state changes, and nothing is reported applied, unless every gate was open. */
  lemma ChangesWerePermitted(s: Snapshot, rq: ApplyRequest, e: Event)
    requires e.call == ApplyCall(rq) && Step(s, e)
    requires e.after != s || e.result.code == AlreadyApplied || e.result.code == CodeApplied
    ensures rq.prerequisites.featureGate && rq.prerequisites.lifecyclePermitted
    ensures RuntimeHolds(rq.lists, rq.identity, rq.prerequisites.runtime)
    ensures rq.prerequisites.capability.state != Unavailable && rq.prerequisites.capability.diagnostic == NoDiagnostic
    ensures s.state != RecoveryRequired
  {
    MatchesIffHolds(rq.lists, rq.identity, rq.prerequisites.runtime);
    hide MatchesSupportedRuntime, RuntimeHolds;
  }

  /** Which gate turned an apply away: the first closed one, in this order, and then nothing was touched. */
  lemma GateCodes(s: Snapshot, rq: ApplyRequest, e: Event)
    requires e.call == ApplyCall(rq) && Step(s, e)
    ensures var p, code := rq.prerequisites, e.result.code;
            if !p.featureGate then code == FeatureGateDisabled && e.after == s
            else if !p.lifecyclePermitted then code == LifecycleMutationDenied && e.after == s
            else if !RuntimeHolds(rq.lists, rq.identity, p.runtime) then code == RuntimeNotAdmitted && e.after == s
            else if p.capability.state == Unavailable || p.capability.diagnostic != NoDiagnostic then
              code == CapabilityUnavailable && e.after == s
            else if s.state == RecoveryRequired then code == JournalConflict && e.after == s
            else
              && code != FeatureGateDisabled && code != LifecycleMutationDenied
              && code != RuntimeNotAdmitted && code != CapabilityUnavailable
              && (code == JournalConflict ==> s.state == Applied)
  {
    MatchesIffHolds(rq.lists, rq.identity, rq.prerequisites.runtime);
    hide MatchesSupportedRuntime, RuntimeHolds;
    StagingFaults(rq.identity, rq.patches, e.regions, s.bytes, |rq.patches|);
  }

  /** Every gate is open for this request on this journal. */
  predicate GatesOpen(s: Snapshot, rq: ApplyRequest) {
    && rq.prerequisites.featureGate && rq.prerequisites.lifecyclePermitted
    && RuntimeHolds(rq.lists, rq.identity, rq.prerequisites.runtime)
    && rq.prerequisites.capability.state != Unavailable && rq.prerequisites.capability.diagnostic == NoDiagnostic
    && s.state != RecoveryRequired
  }

  // ---- The preflight ----

  /** The two non-empty patches have an address in common. */
  ghost predicate ShareAddress(p: PropertyPatch, prior: PropertyPatch) {
    exists k :: InRange(k, p.address, |p.expected|) && InRange(k, prior.address, |prior.expected|)
  }

  ghost predicate Malformed(patches: seq<PropertyPatch>, i: nat)
    requires i < |patches|
  {
    var p := patches[i];
    || p.identifier == "" || p.expected == [] || |p.expected| != |p.replacement| || p.expected == p.replacement
    || exists j | 0 <= j < i :: p.identifier == patches[j].identifier || ShareAddress(p, patches[j])
  }

  /** The code of a patch preceded only by non-empty ones: its first fault, in this order. */
  lemma PatchCodes(identity: ExecutableIdentity, patches: seq<PropertyPatch>, regions: RegionMap, bytes: Contents, i: nat)
    requires i < |patches| && forall j | 0 <= j < i :: patches[j].expected != []
    ensures var p, fault := patches[i], PatchFault(identity, patches, regions, bytes, i);
            var size := |p.expected|;
            var region := regions(p.address, size);
            if Malformed(patches, i) then fault == Some(InvalidPatch)
            else if identity.imageBase == 0 || p.address < identity.imageBase
                    || p.address + size > identity.imageBase + identity.imageSize then fault == Some(PatchOutsideModule)
            else if region == None || region.value.base == 0 || p.address < region.value.base
                    || p.address + size > region.value.base + region.value.size then fault == Some(PatchRegionUnavailable)
            else if !region.value.readable then fault == Some(PatchRegionNotReadable)
            else if !region.value.writable then fault == Some(RegionNotWritable)
            else if region.value.executable then fault == Some(ExecutableRegionRejected)
            else if exists k | p.address <= k < p.address + size :: k !in bytes then fault == Some(BaselineReadFailed)
            else if exists k | p.address <= k < p.address + size :: bytes[k] != p.expected[k - p.address] then fault == Some(BaselineMismatch)
            else fault == None
  {
    hide Contains, RangesOverlap;
    var p := patches[i];
    var region := regions(p.address, |p.expected|);
    ContainsIsInclusion(identity.imageBase, identity.imageSize, p.address, |p.expected|);
    if region.Some? {
      ContainsIsInclusion(region.value.base, region.value.size, p.address, |p.expected|);
    }
    if p.expected != [] {
      forall j | 0 <= j < i
        ensures RangesOverlap(p.address, |p.expected|, patches[j].address, |patches[j].expected|) <==> ShareAddress(p, patches[j])
      {
        OverlapIsSharedAddress(p.address, |p.expected|, patches[j].address, |patches[j].expected|);
      }
      assert Malformed(patches, i) <==> BadShape(p) || exists j | 0 <= j < i :: Collides(p, patches[j]) by {
        assert forall j | 0 <= j < i :: Collides(p, patches[j]) <==> p.identifier == patches[j].identifier || ShareAddress(p, patches[j]);
      }
    }
  }

  /** On a pristine journal with the gates open and every read answered, a failing apply reports the fault of the
      first patch that has one, and touches nothing. */
  lemma FirstFaultyPatchIsReported(s: Snapshot, rq: ApplyRequest, e: Event, i: nat)
    requires e.call == ApplyCall(rq) && Step(s, e) && s.state == Pristine && GatesOpen(s, rq) && !e.refused
    requires rq.identity.imageBase != 0 && rq.identity.imageSize != 0
    requires i < |rq.patches| && PatchFault(rq.identity, rq.patches, e.regions, s.bytes, i).Some?
    requires forall j | 0 <= j < i :: PatchFault(rq.identity, rq.patches, e.regions, s.bytes, j) == None
    ensures Some(e.result.code) == PatchFault(rq.identity, rq.patches, e.regions, s.bytes, i) && e.after == s
    ensures forall j | 0 <= j < i :: rq.patches[j].expected != []
  {
    MatchesIffHolds(rq.lists, rq.identity, rq.prerequisites.runtime);
    NoFaultMeansEach(rq.identity, rq.patches, e.regions, s.bytes, i);
    FirstFaultPersists(rq.identity, rq.patches, e.regions, s.bytes, i + 1);
    StagingFaults(rq.identity, rq.patches, e.regions, s.bytes, |rq.patches|);
    forall j | 0 <= j < i
      ensures rq.patches[j].expected != []
    {
      CleanMeansNoFault(rq.identity, rq.patches, e.regions, s.bytes, j);
    }
    hide MatchesSupportedRuntime, RuntimeHolds, PatchFault, PatchClean, WriteOutcome;
  }

  /** An apply that passed its gates with nothing to patch, or no image, is an invalid patch. */
  lemma EmptyRequestIsInvalid(s: Snapshot, rq: ApplyRequest, e: Event)
    requires e.call == ApplyCall(rq) && Step(s, e) && s.state == Pristine && GatesOpen(s, rq) && !e.refused
    requires rq.patches == []
    ensures e.result.code == InvalidPatch && e.after == s
  {
    MatchesIffHolds(rq.lists, rq.identity, rq.prerequisites.runtime);
    hide MatchesSupportedRuntime, RuntimeHolds;
  }

  /** A refused read fails the baseline, and nothing is touched. */
  lemma RefusedReadCode(s: Snapshot, rq: ApplyRequest, e: Event)
    requires e.call == ApplyCall(rq) && Step(s, e) && s.state == Pristine && e.refused
    ensures e.result.code == BaselineReadFailed && e.after == s && GatesOpen(s, rq)
  {
    MatchesIffHolds(rq.lists, rq.identity, rq.prerequisites.runtime);
    hide MatchesSupportedRuntime, RuntimeHolds, ReadReached;
  }

  /** A journal that leaves Pristine remembers the request: its image, and each patch in its place. */
  lemma RequestIsRemembered(s: Snapshot, rq: ApplyRequest, e: Event)
    requires e.call == ApplyCall(rq) && Step(s, e) && s.state == Pristine && e.after.state != Pristine
    ensures e.after.moduleBase == rq.identity.imageBase && e.after.moduleSize == rq.identity.imageSize
    ensures |e.after.entries| == |rq.patches|
    ensures forall i | 0 <= i < |rq.patches| ::
              e.after.entries[i] == Entry(rq.patches[i].identifier, rq.patches[i].address, rq.patches[i].expected, rq.patches[i].replacement)
  {
    hide MatchesSupportedRuntime, PreflightFault, ReadReached;
  }

  // ---- States, compensation and order ----

  /** The state each code leaves. */
  lemma StateOfCode(s: Snapshot, e: Event)
    requires Step(s, e)
    ensures e.result.state == e.after.state
    ensures match e.result.code
            case CodeApplied => s.state == Pristine && e.after.state == Applied
            case AlreadyApplied | RollbackBaselineMismatch | RollbackFailedStillApplied => s.state == Applied && e.after.state == Applied
            case ApplyFailedRolledBack | AlreadyPristine => s.state == Pristine && e.after.state == Pristine
            case RolledBack => s.state == Applied && e.after.state == Pristine && e.after.entries == []
            case ApplyFailedRecoveryRequired => s.state == Pristine && e.after.state == RecoveryRequired
            case RollbackFailedRecoveryRequired => s.state != Pristine && e.after.state == RecoveryRequired
            case _ => e.after == s
  {
    match e.call
    case ApplyCall(rq) =>
      hide MatchesSupportedRuntime;
      StagingFaults(rq.identity, rq.patches, e.regions, s.bytes, |rq.patches|);
    case RollbackCall =>
  }

  /** Compensation is claimed exactly when something was written back: more than one write by an apply that did
      not succeed, or a rollback that could not be undone. */
  lemma CompensationIsTrue(s: Snapshot, e: Event)
    requires Step(s, e)
    ensures e.call.ApplyCall? && e.result.code != CodeApplied ==>
              (e.result.compensation <==> |e.after.writes| > |s.writes| + 1)
    ensures e.call.RollbackCall? ==>
              (e.result.compensation <==> s.state == Applied && e.result.code == RollbackFailedRecoveryRequired)
    ensures e.result.code == CodeApplied ==> !e.result.compensation
  {
    match e.call
    case ApplyCall(rq) => ApplyCompensationIsTrue(s, rq, e);
    case RollbackCall =>
  }

  lemma ApplyCompensationIsTrue(s: Snapshot, rq: ApplyRequest, e: Event)
    requires e.call == ApplyCall(rq) && Step(s, e)
    ensures e.result.code != CodeApplied ==> (e.result.compensation <==> |e.after.writes| > |s.writes| + 1)
    ensures e.result.code == CodeApplied ==> !e.result.compensation
  {
    hide MatchesSupportedRuntime, PreflightFault;
    var staged := Staged(rq.patches);
    if e.result.code == ApplyFailedRolledBack && e.after != s {
      var failed: nat, accepted: bool :|
        CompensatedLog(s.writes, e.after.writes, staged, failed, accepted) && e.result.compensation == (Undone(failed, accepted) != 0);
    }
  }

  /** A successful apply writes the replacements first entry first; a successful rollback writes the originals
      last entry first; and neither writes anything else. */
  lemma WritesAreInOrder(s: Snapshot, e: Event)
    requires Step(s, e)
    ensures e.result.code == CodeApplied ==>
              && |e.after.writes| == |s.writes| + |e.after.entries|
              && forall i | 0 <= i < |e.after.entries| ::
                   e.after.writes[|s.writes| + i] == WriteCall(e.after.entries[i].address, e.after.entries[i].replacement, true)
    ensures e.result.code == RolledBack ==>
              && |e.after.writes| == |s.writes| + |s.entries|
              && forall i | 0 <= i < |s.entries| ::
                   e.after.writes[|s.writes| + |s.entries| - 1 - i] == WriteCall(s.entries[i].address, s.entries[i].original, true)
  {
    match e.call
    case ApplyCall(rq) =>
      hide MatchesSupportedRuntime;
      StagingFaults(rq.identity, rq.patches, e.regions, s.bytes, |rq.patches|);
    case RollbackCall =>
  }

  /** What a rollback reports, by the state it finds and what the field regions and bytes allow. */
  lemma RollbackCodes(s: Snapshot, e: Event)
    requires e.call == RollbackCall && Step(s, e)
    ensures s.state == Pristine <==> e.result.code == AlreadyPristine
    ensures s.state == RecoveryRequired ==> e.result.code == RollbackFailedRecoveryRequired && e.after == s
    ensures s.state == Applied ==>
              (e.result.code == RollbackBaselineMismatch <==>
               e.refused || exists i | 0 <= i < |s.entries| :: !EntryUsable(s.entries[i], e.regions, s.bytes))
    ensures e.result.code == RollbackBaselineMismatch ==> e.after == s
  {
    if s.state == Applied {
      forall i | 0 <= i < |s.entries|
        ensures EntryRollable(s.entries[i], e.regions, s.bytes) <==> EntryUsable(s.entries[i], e.regions, s.bytes)
      {
        UsableIffRollable(s.entries[i], e.regions, s.bytes);
      }
    }
    hide EntryRollable, EntryUsable;
  }

  /** A readable, writable, non-executable region holds the whole range, which shows the replacement. */
  ghost predicate EntryUsable(entry: Entry, regions: RegionMap, bytes: Contents) {
    var size := |entry.replacement|;
    var region := regions(entry.address, size);
    && size > 0 && region.Some? && region.value.base != 0
    && region.value.base <= entry.address && entry.address + size <= region.value.base + region.value.size
    && region.value.readable && region.value.writable && !region.value.executable
    && forall k | entry.address <= k < entry.address + size :: k in bytes && bytes[k] == entry.replacement[k - entry.address]
  }

  lemma UsableIffRollable(entry: Entry, regions: RegionMap, bytes: Contents)
    ensures EntryRollable(entry, regions, bytes) <==> EntryUsable(entry, regions, bytes)
  {
    hide Contains;
    var region := regions(entry.address, |entry.replacement|);
    if region.Some? {
      ContainsIsInclusion(region.value.base, region.value.size, entry.address, |entry.replacement|);
    }
  }
}
