/** What every run of patch-journal calls keeps. */
module PatchRuns {
  import opened Words
  import opened Memory
  import opened EngineBridge
  import opened PatchEntries
  import opened PatchJournal

  datatype Call = ApplyCall(rq: ApplyRequest) | RollbackCall

  /** One finished call: what was asked, the regions in force, whether a read was refused while it was
      checking, what was answered, what was left. */
  datatype Event = Event(call: Call, regions: RegionMap, refused: bool, result: PatchResult, after: Snapshot)

  ghost predicate Step(s: Snapshot, e: Event) {
    match e.call
    case ApplyCall(rq) => ApplyOutcome(s, rq, e.regions, e.refused, e.after, e.result)
    case RollbackCall => RollbackOutcome(s, e.regions, e.refused, e.after, e.result)
  }

  function After(start: Snapshot, run: seq<Event>): Snapshot {
    if run == [] then start else run[|run| - 1].after
  }

  /** A run is a sequence of calls each of which starts where the one before it ended. */
  ghost predicate IsRun(start: Snapshot, run: seq<Event>) {
    run != [] ==>
      var earlier := run[..|run| - 1];
      IsRun(start, earlier) && Step(After(start, earlier), run[|run| - 1])
  }

  /** The journal's state tells the truth about memory, relative to the bytes before the first call. */
  ghost predicate Truthful(baseline: Contents, s: Snapshot) {
    && Consistent(s.state, s.moduleBase, s.moduleSize, s.entries)
    && match s.state
       case Pristine => s.bytes == baseline
       case Applied => AllOriginal(baseline, s.entries) && s.bytes == Overlaid(baseline, s.entries)
       case RecoveryRequired => UnchangedOutside(baseline, s.bytes, s.entries, |s.entries|)
  }

  lemma ApplyKeepsTruth(baseline: Contents, s: Snapshot, rq: ApplyRequest, regions: RegionMap, refused: bool, t: Snapshot, r: PatchResult)
    requires Truthful(baseline, s)
    requires ApplyOutcome(s, rq, regions, refused, t, r)
    ensures Truthful(baseline, t)
  {
    if t.state != s.state {
      assert FreshApplyOutcome(s, rq, PreflightFault(rq.identity, rq.patches, regions, s.bytes), t, r);
      PreflightMeaning(rq.identity, rq.patches, regions, s.bytes);
    }
  }

  lemma RollbackKeepsTruth(baseline: Contents, s: Snapshot, regions: RegionMap, refused: bool, t: Snapshot, r: PatchResult)
    requires Truthful(baseline, s)
    requires RollbackOutcome(s, regions, refused, t, r)
    ensures Truthful(baseline, t)
  {
    if t.state != s.state {
      var n := |s.entries|;
      assert forall i | 0 <= i < n :: |s.entries[i].original| == |s.entries[i].replacement| by {
        assert forall i | 0 <= i < n :: EntryOk(s.entries[i], s.moduleBase, s.moduleSize);
      }
      OverlaidOutside(baseline, s.entries);
      assert UnchangedOutside(baseline, t.bytes, s.entries, n);
      if r.code == RolledBack {
        OriginalsRestore(s.entries, baseline, t.bytes, n);
      }
    }
  }

  /** Safety over whole runs, for every fault the adapter may inject: after any number of calls,
      Pristine means memory is byte for byte what it was at the start, Applied means it is that
      baseline overlaid with exactly the journal's replacements, and in every state the reported
      state is the stored one and the entries form a well-formed transaction. */
  lemma {:induction false} EveryRunIsTruthful(start: Snapshot, run: seq<Event>)
    requires Consistent(start.state, start.moduleBase, start.moduleSize, start.entries) && start.state == Pristine
    requires IsRun(start, run)
    ensures Truthful(start.bytes, After(start, run))
    ensures run != [] ==> run[|run| - 1].result.state == After(start, run).state
  {
    if run != [] {
      var earlier, e := run[..|run| - 1], run[|run| - 1];
      EveryRunIsTruthful(start, earlier);
      match e.call
      case ApplyCall(rq) => ApplyKeepsTruth(start.bytes, After(start, earlier), rq, e.regions, e.refused, e.after, e.result);
      case RollbackCall => RollbackKeepsTruth(start.bytes, After(start, earlier), e.regions, e.refused, e.after, e.result);
    }
  }

  /** Codes that promise the call changed no byte of memory. */
  predicate LeavesMemory(code: PatchCode) {
    code !in {CodeApplied, RolledBack, ApplyFailedRecoveryRequired, RollbackFailedRecoveryRequired}
  }

  /** Every such code keeps its promise, and leaves the journal as it found it. */
  lemma FailureCodesAreTrue(s: Snapshot, e: Event)
    requires Consistent(s.state, s.moduleBase, s.moduleSize, s.entries)
    requires Step(s, e) && LeavesMemory(e.result.code)
    ensures e.after == s.(writes := e.after.writes)
    ensures e.result.code !in {ApplyFailedRolledBack, RollbackFailedStillApplied} ==> e.after.writes == s.writes
  {
  }

  lemma RecoveryStep(s: Snapshot, e: Event)
    requires s.state == RecoveryRequired && Step(s, e)
    ensures e.after == s
  {
  }

  /** Once recovery is required, nothing is ever written or changed again by the journal. */
  lemma {:induction false} RecoveryIsAbsorbing(start: Snapshot, run: seq<Event>, more: seq<Event>)
    requires IsRun(start, run + more)
    requires After(start, run).state == RecoveryRequired
    ensures After(start, run + more) == After(start, run)
    decreases |more|
  {
    if more == [] {
      assert run + more == run;
    } else {
      var fewer := more[..|more| - 1];
      assert (run + more)[..|run + more| - 1] == run + fewer;
      RecoveryIsAbsorbing(start, run, fewer);
      RecoveryStep(After(start, run + fewer), more[|more| - 1]);
    }
  }

  /** On an adapter that never fails, an apply whose preflight passes succeeds, and rolling it back under
      the same regions restores every byte. */
  lemma FaithfulRoundTrip(start: Snapshot, rq: ApplyRequest, applied: Event, rolled: Event)
    requires Consistent(start.state, start.moduleBase, start.moduleSize, start.entries) && start.state == Pristine
    requires applied.call == ApplyCall(rq) && rolled.call == RollbackCall && rolled.regions == applied.regions
    requires Step(start, applied) && Step(applied.after, rolled)
    requires applied.result.code == FaithfulApplyCode(start, rq, applied.regions)
    requires rolled.result.code == FaithfulRollbackCode(applied.after, rolled.regions)
    requires GateFault(Pristine, rq) == None && PreflightFault(rq.identity, rq.patches, applied.regions, start.bytes) == None
    ensures applied.after.state == Applied && applied.after.bytes == Overlaid(start.bytes, Staged(rq.patches))
    ensures rolled.after.state == Pristine && rolled.after.bytes == start.bytes
  {
    PreflightMeaning(rq.identity, rq.patches, applied.regions, start.bytes);
    var staged := Staged(rq.patches);
    forall i | 0 <= i < |staged|
      ensures Mapped(start.bytes, staged[i].address, |staged[i].original|)
    {
      assert Present(start.bytes, staged[i].address, staged[i].original);
    }
    OverlaidHasReplacements(start.bytes, staged, rq.identity.imageBase, rq.identity.imageSize);
    forall i | 0 <= i < |staged|
      ensures EntryRollable(staged[i], rolled.regions, applied.after.bytes)
    {
      assert EntryOk(staged[i], rq.identity.imageBase, rq.identity.imageSize);
      assert RegionUsable(rolled.regions(rq.patches[i].address, |rq.patches[i].expected|), rq.patches[i].address, |rq.patches[i].expected|);
    }
    ApplyKeepsTruth(start.bytes, start, rq, applied.regions, applied.refused, applied.after, applied.result);
    RollbackKeepsTruth(start.bytes, applied.after, rolled.regions, rolled.refused, rolled.after, rolled.result);
  }

  /** What becomes of a request whose gates pass on an applied journal, on any adapter: nothing changes, and
      the journal reports it already applied exactly when it is the same transaction, its replacements are
      all still in memory, and no read of them was refused. */
  lemma RepeatAcceptedIff(s: Snapshot, rq: ApplyRequest, e: Event)
    requires s.state == Applied && GateFault(Applied, rq) == None
    requires e.call == ApplyCall(rq) && Step(s, e)
    ensures e.after == s
    ensures e.result.code == AlreadyApplied <==> SamePatches(rq.patches, s.entries) && AllReplaced(s.bytes, s.entries) && !e.refused
    ensures e.result.code != AlreadyApplied ==> e.result.code == JournalConflict
  {
  }

  /** Repeating a successful apply is idempotent on any adapter exactly when no read is refused: the second call
      then says already applied, and otherwise reports a conflict. It changes nothing either way. */
  lemma RepeatedApplyIsIdempotent(start: Snapshot, rq: ApplyRequest, first: Event, second: Event)
    requires Consistent(start.state, start.moduleBase, start.moduleSize, start.entries) && start.state == Pristine
    requires first.call == ApplyCall(rq) && Step(start, first) && first.result.code == CodeApplied
    requires second.call == ApplyCall(rq) && Step(first.after, second)
    ensures second.after == first.after
    ensures second.result == PatchResult(if second.refused then JournalConflict else AlreadyApplied, Applied, false)
  {
    AppliedAsAsked(start, rq, first);
    RepeatAcceptedIff(first.after, rq, second);
    assert SamePatches(rq.patches, first.after.entries);
  }

  lemma RefusedReadIsConflict(start: Snapshot, rq: ApplyRequest, first: Event, second: Event)
    requires Consistent(start.state, start.moduleBase, start.moduleSize, start.entries) && start.state == Pristine
    requires first.call == ApplyCall(rq) && Step(start, first) && first.result.code == CodeApplied
    requires second.call == ApplyCall(rq) && Step(first.after, second) && second.refused
    ensures second.result.code == JournalConflict && second.after == first.after
  {
    RepeatedApplyIsIdempotent(start, rq, first, second);
  }

  /** What a successful apply leaves: the request as entries, every replacement in memory, gates still open. */
  lemma AppliedAsAsked(start: Snapshot, rq: ApplyRequest, first: Event)
    requires Consistent(start.state, start.moduleBase, start.moduleSize, start.entries) && start.state == Pristine
    requires first.call == ApplyCall(rq) && Step(start, first) && first.result.code == CodeApplied
    ensures first.after.state == Applied && first.after.entries == Staged(rq.patches)
    ensures GateFault(Applied, rq) == None && AllReplaced(first.after.bytes, first.after.entries)
  {
    assert FreshApplyOutcome(start, rq, PreflightFault(rq.identity, rq.patches, first.regions, start.bytes), first.after, first.result);
    PreflightMeaning(rq.identity, rq.patches, first.regions, start.bytes);
    var staged := Staged(rq.patches);
    forall i | 0 <= i < |staged|
      ensures Mapped(start.bytes, staged[i].address, |staged[i].original|)
    {
      assert Present(start.bytes, staged[i].address, staged[i].original);
    }
    OverlaidHasReplacements(start.bytes, staged, rq.identity.imageBase, rq.identity.imageSize);
  }

  // ---- A concrete transaction ----

  const EXAMPLE_BASE: Word := 0x1000

  /** One byte, from 0 to 1, in an admitted module. */
  function ExampleRequest(): ApplyRequest {
    var version := RuntimeVersion(1, 6, 0, 0);
    var name := "SkyrimSE.exe";
    ApplyRequest(
      Allowlists([RuntimeSupportRecord("example", name, version, X64, [], 1)], []),
      ExecutableIdentity(name, name, version, X64, [], 1, EXAMPLE_BASE, 1),
      Prerequisites(true, true, RuntimeEvaluation(RuntimeAdmitted, RuntimeOk, 0, name, version, [], 1, EXAMPLE_BASE, 1),
                    CapabilityEntry(0, HookReady, NoDiagnostic)),
      [PropertyPatch("example", EXAMPLE_BASE, [0], [1])])
  }

  function ExampleRegions(): RegionMap {
    (address, size) => Some(MemoryRegion(EXAMPLE_BASE, 1, true, true, false))
  }

  const EXAMPLE_START := Snapshot(Pristine, 0, 0, [], map[EXAMPLE_BASE := 0], [])

  /** It passes every gate and the preflight. */
  lemma ExamplePasses()
    ensures GateFault(Pristine, ExampleRequest()) == None
    ensures var rq := ExampleRequest(); PreflightFault(rq.identity, rq.patches, ExampleRegions(), EXAMPLE_START.bytes) == None
  {
    var rq := ExampleRequest();
    assert FirstFault(rq.identity, rq.patches, ExampleRegions(), EXAMPLE_START.bytes, 0) == None;
    assert PatchFault(rq.identity, rq.patches, ExampleRegions(), EXAMPLE_START.bytes, 0) == None;
  }

  /** A successful apply, as an event, of any request that passes. */
  function Success(s: Snapshot, rq: ApplyRequest, regions: RegionMap): Event {
    var staged := Staged(rq.patches);
    Event(ApplyCall(rq), regions, false, PatchResult(CodeApplied, Applied, false),
          Snapshot(Applied, rq.identity.imageBase, rq.identity.imageSize, staged, Overlaid(s.bytes, staged),
                   s.writes + Forward(staged, |staged|)))
  }

  lemma SuccessIsStep(s: Snapshot, rq: ApplyRequest, regions: RegionMap)
    requires s.state == Pristine && GateFault(Pristine, rq) == None
    requires PreflightFault(rq.identity, rq.patches, regions, s.bytes) == None
    ensures Step(s, Success(s, rq, regions))
    ensures Success(s, rq, regions).call == ApplyCall(rq) && Success(s, rq, regions).result.code == CodeApplied
    ensures Success(s, rq, regions).after.bytes == Overlaid(s.bytes, Staged(rq.patches))
    ensures rq.prerequisites.lifecyclePermitted
  {
    hide PreflightFault, MatchesSupportedRuntime, Overlaid;
  }

  /** A successful apply really changes memory. */
  lemma SuccessChangesMemory(s: Snapshot, rq: ApplyRequest, regions: RegionMap)
    requires PreflightFault(rq.identity, rq.patches, regions, s.bytes) == None
    ensures Overlaid(s.bytes, Staged(rq.patches)) != s.bytes
  {
    PreflightMeaning(rq.identity, rq.patches, regions, s.bytes);
    var staged := Staged(rq.patches);
    forall i | 0 <= i < |staged|
      ensures Mapped(s.bytes, staged[i].address, |staged[i].original|)
    {
      assert Present(s.bytes, staged[i].address, staged[i].original);
    }
    OverlaidHasReplacements(s.bytes, staged, rq.identity.imageBase, rq.identity.imageSize);
    var e := staged[0];
    assert EntryOk(e, rq.identity.imageBase, rq.identity.imageSize);
    if Overlaid(s.bytes, staged) == s.bytes {
      CollectIsPresent(s.bytes, e.address, e.original);
      CollectIsPresent(s.bytes, e.address, e.replacement);
      assert false;
    }
  }

  /** One call of the class is one step. */
  method Perform(journal: Journal, memory: MemoryView, call: Call) returns (result: PatchResult, ghost refused: bool)
    requires journal.Valid()
    modifies journal, memory`bytes, memory`writes
    ensures journal.Valid()
    ensures Step(old(journal.View(memory)), Event(call, memory.regions, refused, result, journal.View(memory)))
    ensures memory.temper.Faithful? ==> !refused && result.code == FaithfulCode(old(journal.View(memory)), call, memory.regions)
    ensures memory.temper.Deaf? && call.ApplyCall? && Repeats(old(journal.View(memory)), call.rq) ==> refused
    ensures memory.temper.Spoiling? && call.ApplyCall? && Passes(old(journal.View(memory)), call.rq, memory.regions) ==>
              result.code == ApplyFailedRecoveryRequired
  {
    match call
    case ApplyCall(rq) => result, refused := journal.Apply(rq, memory);
    case RollbackCall => result, refused := journal.Rollback(memory);
  }

  /** The code a call returns on an adapter that never fails. */
  function FaithfulCode(s: Snapshot, call: Call, regions: RegionMap): PatchCode {
    match call
    case ApplyCall(rq) => FaithfulApplyCode(s, rq, regions)
    case RollbackCall => FaithfulRollbackCode(s, regions)
  }

  // ---- The class on particular adapters ----

  /** The refused read is real: the class, on an adapter that goes deaf after a successful apply, reports a
      conflict for the very same request, with memory as the first call left it. */
  method RepeatOnDeafAdapter() returns (first: PatchResult, second: PatchResult)
    ensures first == PatchResult(CodeApplied, Applied, false)
    ensures second == PatchResult(JournalConflict, Applied, false)
  {
    var rq := ExampleRequest();
    var journal := new Journal();
    var memory := new MemoryView(EXAMPLE_START.bytes, ExampleRegions(), Faithful);
    ghost var start := journal.View(memory);
    ExamplePasses();
    ghost var refused: bool;
    first, refused := Perform(journal, memory, ApplyCall(rq));
    ghost var event := Event(ApplyCall(rq), ExampleRegions(), refused, first, journal.View(memory));
    AppliedAsAsked(start, rq, event);
    assert Repeats(event.after, rq) by {
      assert SamePatches(rq.patches, event.after.entries);
    }
    memory.temper := Deaf;
    second, refused := Perform(journal, memory, ApplyCall(rq));
    RepeatedApplyIsIdempotent(start, rq, event, Event(ApplyCall(rq), ExampleRegions(), refused, second, journal.View(memory)));
  }

  /** Recovery is real: on an adapter that spoils what it writes, the apply cannot be undone. */
  method ApplyOnSpoilingAdapter() returns (result: PatchResult, ghost event: Event)
    ensures result == PatchResult(ApplyFailedRecoveryRequired, RecoveryRequired, true)
    ensures event.call == ApplyCall(ExampleRequest()) && event.result == result && Step(EXAMPLE_START, event)
  {
    var journal := new Journal();
    var memory := new MemoryView(EXAMPLE_START.bytes, ExampleRegions(), Spoiling);
    ExamplePasses();
    ghost var refused: bool;
    result, refused := Perform(journal, memory, ApplyCall(ExampleRequest()));
    event := Event(ApplyCall(ExampleRequest()), ExampleRegions(), refused, result, journal.View(memory));
  }

  /** The class makes only such runs: any sequence of calls on one journal and one memory, with the
      regions and the adapter's temper free to change between calls, leaves memory in the state the journal reports. */
  method Drive(journal: Journal, memory: MemoryView, calls: seq<Call>, regions: seq<RegionMap>, tempers: seq<Temper>)
    returns (ghost run: seq<Event>)
    requires journal.Valid() && journal.state == Pristine && |regions| == |calls| == |tempers|
    modifies journal, memory
    ensures journal.Valid()
    ensures |run| == |calls| && forall i | 0 <= i < |calls| :: run[i].call == calls[i] && run[i].regions == regions[i]
    ensures IsRun(old(journal.View(memory)), run)
    ensures After(old(journal.View(memory)), run) == journal.View(memory)
    ensures Truthful(old(memory.bytes), journal.View(memory))
  {
    hide Truthful, Step;
    ghost var start := journal.View(memory);
    run := [];
    for i := 0 to |calls|
      invariant journal.Valid()
      invariant |run| == i && forall j | 0 <= j < i :: run[j].call == calls[j] && run[j].regions == regions[j]
      invariant IsRun(start, run)
      invariant After(start, run) == journal.View(memory)
    {
      memory.regions := regions[i];
      memory.temper := tempers[i];
      var result, refused := Perform(journal, memory, calls[i]);
      ghost var event := Event(calls[i], regions[i], refused, result, journal.View(memory));
      assert (run + [event])[..|run|] == run;
      run := run + [event];
    }
    EveryRunIsTruthful(start, run);
  }
}
