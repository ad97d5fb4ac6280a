# ENB core: a verified model

A Dafny 4.11 model of the state-changing core of the repository, with proofs that hold for every input, every run and
every interleaving. `dafny verify dfyconfig.toml` checks all of it.

## What is modelled

- **Patch journal** (`Memory`, `PatchEntries`, `PatchJournal`, `PatchRuns`, `PatchVerdicts`). `PatchJournal.Journal`
  is the multi-entry byte-patch transaction, with the loops, early exits and compensation of the source.
  `Memory.MemoryView` is the injected adapter: a refused write changes nothing, an accepted one may store anything
  inside its own range, a read may be refused at any time. Each call's outcome is stated exactly: the new journal,
  every byte of memory, and every write issued, in order; and the code of a call that writes nothing is determined by
  the request, the memory, and whether one of its reads was refused. Over all runs the reported state tells the truth
  about memory, and with an adapter that never fails the outcome code is a function of the request (so "apply then
  roll back" is the identity). `PatchVerdicts` says, over any step, which condition is behind each code, in the order
  the source tests them.
- **Lifecycle gate, alone and with both journals** (`LifecycleGate`, `SaveSafety`). The save and quiesce state machine
  with its 64-bit wrapping depth and generation. Composed with the patch journal and the object property journal: if
  applies are given the gate's current permission, and restoration is acknowledged only after a rollback of each
  journal that restored its baseline, memory is mutated only while the gate is Active. So no open save sees mutated
  memory, as long as the wrapping depth has not ended a save early; it never does with fewer than 2^64 saves open at
  once, and the exact condition, and a run that breaks the promise past it, are proved. The price is proved too: once
  a journal needs recovery, also because the owner of a mutated object is gone, such a caller can never leave Active
  again.
- **Object property journal** (`EngineProperties`, `ObjectPropertyJournal`, `ObjectRuns`, `ObjectVerdicts`). The same
  promise under a writer that may leave any bytes in the field whatever it reports, with the owner, phase and field
  gates, the typed encoding, and the typed mutation on top; `ObjectVerdicts` gives the condition behind each code.
- **Callback session** (`CallbackRing`, `CallbackSession`, `CallbackRuns`, `CallbackOutcomes`, `CallbackTarget`). The
  thunk and the session operations as interleaved atomic accesses: ring invariant under wrapping positions, exclusive
  ownership, registration matching, frozen targets after teardown, balanced terminal counters, and a wait that a
  returning callback always ends. `CallbackOutcomes` says where each operation and each callback ends up, whatever
  runs in between. Lemmas that ask for `Inv(s)` hold in every reachable state, by `CallbackRuns.EveryRunIsSound`.
  `CallbackTarget` holds the target as the object the source mutates, and proves that the atomic steps, uninterrupted,
  add up to its methods.
- **Address Library v2** (`AddressFormat`, `AddressPayload`, `AddressLibrary`). An encoder, a functional decoder, the
  imperative parser refining it, artifact admission, and lookup. A payload is accepted exactly when it is some
  encoding of records with distinct ids.
- **Smaller loops**: the capability fold with symbol validation (`EngineBridge`), the host search (`HostResolver`),
  the wrapper classifier (`WrapperFingerprint`), and the four-part version parser (`FileVersion`).

`Words` holds machine words and little-endian integers.

## Hypotheses

- Both journals: the journal is the only writer of the memory it patches, and what the adapter answers besides memory
  (regions, owner, phase, thread) is fixed while one call runs; between calls it may change freely.
- Callback session: interleaving is sequentially consistent; one host thread runs the thunk at a time; the integration
  thread serialises session operations, as docs/ARCHITECTURE_BOUNDARY.md:50 asks; and when an activation is about to reset
  a target, no thunk still holds a pointer to it. The code does not ensure the last one
  (`CallbackRuns.UnsafeResetIsReachable`), and it is exactly what teardown and the in-flight counts need, because `reset`
  zeroes the count unconditionally (`CallbackRuns.HypothesisIsExact`, `CallbackRuns.TeardownCanBeIntruded`).
- Memory is a finite map from address to byte; an adapter read succeeds only where memory is mapped.
- Floats are 32-bit patterns; which are finite and which lie in a range is the parameter `FloatRules`.
- The compiled-in allowlists, digests and the operating system's answers are parameters. Allocation succeeds.
- `std::ranges::sort` is used through its contract only: some sorted permutation.

## Where the code differs from what its documentation or a reader might expect

- The gate's save depth wraps: it is the number of open saves modulo 2^64. An outcome ends a save although others are
  open exactly when it leaves a positive multiple of 2^64 open (`LifecycleGate.EndsEarlyIff`,
  `LifecycleGate.WrappedDepthEndsSaveEarly`), and then, and only then, an open save can come to see mutated memory
  (`SaveSafety.ExposedIff`, `SaveSafety.OpenSaveSeesMutatedMemory`).
- "No mismatch flags" does not mean a known build when the allowlist is empty
  (`WrapperFingerprint.CleanMeansKnownIffListed`).
- The order of the module list can show in the host search. It cannot exactly when some anchored module lacks an export or
  all that fail validation fail alike (`HostResolver.OrderIsIrrelevantIff`, `HostResolver.OrderCanShow`); a successful
  result never depends on it. A host listed twice is ambiguous with itself.
- docs/SKYRIM_ENGINE_BRIDGE.md:142 calls repeated apply idempotent. On any adapter, repeating a successful apply says
  already applied exactly when no read of the replacements is refused, and otherwise reports a conflict
  (`PatchRuns.RepeatedApplyIsIdempotent`, `PatchRuns.RefusedReadIsConflict`); the class does report that conflict on an
  adapter that goes deaf (`PatchRuns.RepeatOnDeafAdapter`). It changes nothing either way.
- The sequence numbers of accepted callbacks are strictly increasing serial numbers modulo 2^64. Up to 2^64 callbacks the
  next one is the largest so far exactly when the count has not reached 2^64 (`CallbackRing.NextSequenceIsLargestIff`);
  as long as fewer than 2^64 callbacks separate neighbours, they all increase exactly when the first and the last were
  counted in the same round of 2^64 (`CallbackRing.SequencesIncreaseIff`); and a run in which they do not increase is
  given (`CallbackTarget.SequenceWrapsToZero`).

## Model

| member | source | states |
|---|---|---|
| `Memory.ContainsIsInclusion` | src/skyrim/PatchJournal.cpp:10-21 | The subtraction-only containment test is inclusion of a non-empty range in a non-null one, with no wrap. |
| `Memory.OverlapIsSharedAddress` | src/skyrim/PatchJournal.cpp:31-41 | On non-empty ranges the overlap test is the existence of a shared address. |
| `Memory.ReadEquals` | src/skyrim/PatchJournal.cpp:43-55 | True exactly when the scratch buffer is large enough, memory shows the expected bytes, and the read was not refused. |
| `Memory.MemoryView.Write` | docs/SKYRIM_ENGINE_BRIDGE.md:146-150 | The writer contract: false changes nothing, true may store anything but only in its own range. |
| `PatchEntries.DisjointEntries` | src/skyrim/PatchJournal.cpp:132-141 | In a well-formed transaction no address belongs to two entries. |
| `PatchEntries.OriginalsRestore` | src/skyrim/PatchJournal.cpp:197-215 | With every touched entry showing its original again, memory is byte for byte what it was. |
| `PatchEntries.ReplacementsRestore` | src/skyrim/PatchJournal.cpp:275-291 | With every replacement showing again, memory is byte for byte what it was while applied. |
| `PatchEntries.OverlaidIsUnique` | src/skyrim/PatchJournal.cpp:189-232 | Memory that shows every replacement and is unchanged elsewhere is the baseline overlaid with the replacements. |
| `PatchJournal.PreflightMeaning` | src/skyrim/PatchJournal.cpp:118-181 | Preflight passes exactly for a non-empty list of uniquely named, pairwise disjoint, real changes inside the module, on usable data regions whose expected bytes are present. |
| `PatchJournal.StagePatches` | src/skyrim/PatchJournal.cpp:122-181 | The staging loop reports the first fault in patch order, or a failed read exactly when one was refused, or stages exactly the patches; it writes nothing. |
| `PatchJournal.WriteReplacements` | src/skyrim/PatchJournal.cpp:189-226 | The write loop issues exactly the replacements in order up to the first failure. |
| `PatchJournal.RestoreOriginals` | src/skyrim/PatchJournal.cpp:195-208 | Compensation issues exactly the originals of the written entries, last first, and restores memory when it completes. |
| `PatchJournal.RestoreAll` | src/skyrim/PatchJournal.cpp:265-298 | Rollback restores last to first; on a failure it re-applies the restored ones and says whether memory is back as it was. |
| `PatchJournal.Journal.Apply` | src/skyrim/PatchJournal.cpp:72-233 | Every apply ends in one of the listed outcomes, each fixing code, journal, memory and write log; without a write the code is determined by request, memory and whether a read was refused. |
| `PatchJournal.Journal.Commit` | src/skyrim/PatchJournal.cpp:183-232 | After preflight: applied with memory overlaid, rolled back with memory untouched, or recovery with only its own ranges in doubt. |
| `PatchJournal.Journal.StillHolds` | src/skyrim/PatchJournal.cpp:95-115 | Already applied exactly when it is the same transaction, its replacements are all still in memory, and no read was refused. |
| `PatchJournal.Journal.AllRollable` | src/skyrim/PatchJournal.cpp:250-263 | Rollback proceeds exactly when every region is usable, every replacement is still present, and no read was refused. |
| `PatchJournal.Journal.Rollback` | src/skyrim/PatchJournal.cpp:235-305 | Every rollback ends in one of the listed outcomes, each fixing code, journal, memory and write log; a baseline mismatch is reported exactly when an entry cannot be rolled back or a read was refused. |
| `PatchJournal.Journal.Unwind` | src/skyrim/PatchJournal.cpp:265-304 | After the checks: pristine with all originals back, still applied with memory untouched, or recovery. |
| `PatchRuns.ApplyKeepsTruth` | src/skyrim/PatchJournal.cpp:72-233 | Apply keeps the state truthful about memory relative to the bytes before the first call. |
| `PatchRuns.RollbackKeepsTruth` | src/skyrim/PatchJournal.cpp:235-305 | Rollback keeps the state truthful about memory relative to the bytes before the first call. |
| `PatchRuns.EveryRunIsTruthful` | src/skyrim/PatchJournal.cpp:72-305 | Over every run with faults at any point: Pristine is the original memory, Applied is it overlaid with the replacements, and the reported state is the stored one. |
| `PatchRuns.FailureCodesAreTrue` | src/skyrim/PatchJournal.cpp:209-214 | Every code other than success and recovery leaves every byte and the journal as the call found them; most issue no write at all. |
| `PatchRuns.RecoveryIsAbsorbing` | src/skyrim/PatchJournal.cpp:91-93 | After RecoveryRequired no run of calls changes journal, memory or write log. |
| `PatchRuns.FaithfulRoundTrip` | src/skyrim/PatchJournal.cpp:72-305 | With an adapter that never fails, an apply that passes preflight succeeds and its rollback restores every byte. |
| `PatchRuns.RepeatAcceptedIff` | src/skyrim/PatchJournal.cpp:95-115 | On any adapter an apply over an applied journal is accepted if and only if it is the same transaction, every replacement is present and no read was refused; otherwise it is a conflict, and it changes nothing. |
| `PatchRuns.RepeatedApplyIsIdempotent` | docs/SKYRIM_ENGINE_BRIDGE.md:142 | On any adapter, repeating a successful apply says already applied unless a read was refused, and changes nothing. |
| `PatchRuns.RefusedReadIsConflict` | src/skyrim/PatchJournal.cpp:107-113 | When a read was refused, the repetition reports a conflict and changes nothing. |
| `PatchRuns.RepeatOnDeafAdapter` | src/skyrim/PatchJournal.cpp:95-115 | The class applies a transaction and, on an adapter that then refuses every read, reports a conflict for the same request. |
| `PatchRuns.ApplyOnSpoilingAdapter` | src/skyrim/PatchJournal.cpp:189-224 | The class ends in RecoveryRequired on an adapter that spoils what it writes. |
| `PatchRuns.Perform` | src/skyrim/PatchJournal.cpp:72-305 | One call of the class is one step of the run relation. |
| `PatchRuns.Drive` | src/skyrim/PatchJournal.cpp:72-305 | Any sequence of calls on the class is such a run, so memory ends as the journal reports. |
| `PatchVerdicts.ChangesWerePermitted` | src/skyrim/PatchJournal.cpp:78-93 | Over any step: whatever an apply changed, and whatever it reported applied, the feature gate was on, the lifecycle permitted it, the runtime evaluation agreed with this executable and a listed record field by field, and the capability was available without a diagnostic. |
| `PatchVerdicts.GateCodes` | src/skyrim/PatchJournal.cpp:78-93 | Each gate has its own code, reported exactly when it is the first one closed, and then nothing is touched. |
| `PatchVerdicts.PatchCodes` | src/skyrim/PatchJournal.cpp:122-181 | The code of each faulty patch: the first thing wrong with its shape and its neighbours, its place in the image, its region, its protections, and its bytes. |
| `PatchVerdicts.FirstFaultyPatchIsReported` | src/skyrim/PatchJournal.cpp:118-181 | Over any step that passed the gates, the code is that of the first patch that has a fault. |
| `PatchVerdicts.RefusedReadCode` | src/skyrim/PatchJournal.cpp:160-181 | A refused baseline read is reported as one, by a request whose gates were all open, and touches nothing. |
| `PatchVerdicts.RequestIsRemembered` | src/skyrim/PatchJournal.cpp:164-188 | A journal that leaves Pristine holds the image of the request and each of its patches in its place. |
| `PatchVerdicts.StateOfCode` | src/skyrim/PatchJournal.cpp:72-305 | Each code says which state the journal was in and which it is left in. |
| `PatchVerdicts.CompensationIsTrue` | src/skyrim/PatchJournal.cpp:209-224 | An apply claims compensation exactly when it failed after more than one write; a rollback exactly when it could not be undone. |
| `PatchVerdicts.WritesAreInOrder` | src/skyrim/PatchJournal.cpp:189-291 | A successful apply writes the replacements first to last, a successful rollback the originals last to first, and neither writes anything else. |
| `PatchVerdicts.RollbackCodes` | src/skyrim/PatchJournal.cpp:235-263 | What a rollback reports in each state, and over an applied journal the baseline mismatch exactly when a read was refused or an entry is not usable, in terms of regions and bytes. |
| `LifecycleGate.LifecycleGate.Dispatch` | src/runtime/LifecycleGate.cpp:20-162 | The new state, generation and depth, the diagnostic, and every field of the result, for each event in each state. |
| `LifecycleGate.LifecycleGate.Leave` | src/runtime/LifecycleGate.cpp:98-117 | Shutdown and interruption leave Active only with an acknowledgement, through the baseline-restored state; they are refused in the final states and otherwise change nothing yet. |
| `LifecycleGate.EveryRunIsCounted` | src/runtime/LifecycleGate.cpp:38-157 | Over every run: transitional states never rest, generation counts entries into Active and depth counts begins minus outcomes, both modulo 2^64; below 2^64 open saves the depth is exact and positive exactly in SaveInProgress. |
| `LifecycleGate.StepLaws` | src/runtime/LifecycleGate.cpp:38-162 | Rejected events change nothing, leaving Active needs the acknowledgement, Stopped and Failed reject everything. |
| `LifecycleGate.FinalStatesStay` | src/runtime/LifecycleGate.cpp:123-155 | Once Stopped or Failed, no further run changes the gate. |
| `LifecycleGate.NestedBeginIsExactIff` | src/runtime/LifecycleGate.cpp:50-54 | A nested begin keeps the depth exact if and only if the counter was not at its maximum. |
| `LifecycleGate.WrappedDepthEndsSaveEarly` | src/runtime/LifecycleGate.cpp:81-84 | With 2^64 + 1 open saves one outcome ends the save although 2^64 are outstanding. |
| `LifecycleGate.EndsEarlyIff` | src/runtime/LifecycleGate.cpp:72-85 | An outcome ends the save with others open if and only if it leaves a positive multiple of 2^64 open. |
| `LifecycleGate.OpenIffInProgress` | src/runtime/LifecycleGate.cpp:50-85 | Until a save ends early, saves are open exactly while the gate says one is in progress. |
| `LifecycleGate.NoneForgotten` | src/runtime/LifecycleGate.cpp:119-155 | Until a save ends early, only the final states leave saves without an outcome, and entering Active leaves none. |
| `LifecycleGate.ObjectionCodes` | src/runtime/LifecycleGate.cpp:38-157 | Which events each state turns away, and that the missing acknowledgement is reported exactly for the three ways out of Active. |
| `LifecycleGate.LastAcceptedDecides` | src/runtime/LifecycleGate.cpp:38-157 | Over every run the last accepted event decides the state: Shutdown for a shutdown request, Stopped for its completion, Failed for an interruption, Active for activation and reapplication, and for an outcome ReapplyPending exactly at depth zero. |
| `LifecycleGate.StateTellsHistory` | src/runtime/LifecycleGate.cpp:38-157 | Over every run: Failed exactly when an interruption was accepted, Stopped exactly when a completion was, Shutdown exactly when the last accepted event was the request, and likewise for the states before them. |
| `LifecycleGate.AcceptedIff` | src/runtime/LifecycleGate.cpp:38-157 | Over every run, which event is accepted next, in terms of the accepted events before it and the acknowledgement. |
| `SaveSafety.StepKeepsSafe` | docs/ARCHITECTURE_BOUNDARY.md:44-46 | A disciplined gate or journal step keeps: outside Active both journals are pristine, and their states are truthful. |
| `SaveSafety.MutatedOnlyWhileActive` | docs/ARCHITECTURE_BOUNDARY.md:44-46 | Over every run, however adapters fail: whenever the gate is not Active, both memories are the original baseline. |
| `SaveSafety.NoSaveSeesMutatedMemory` | docs/ARCHITECTURE_BOUNDARY.md:44-47 | Over every run in which no save has ended early, in particular with fewer than 2^64 open at once: while any save is open, or was left without an outcome by a shutdown or interruption, both memories are the original baseline. |
| `SaveSafety.ExposedIff` | src/runtime/LifecycleGate.cpp:81-97 | Where a save has just ended and there is something to apply, a disciplined continuation can mutate memory under an open save if and only if one is still open. |
| `SaveSafety.OpenSaveSeesMutatedMemory` | src/runtime/LifecycleGate.cpp:81-97 | A disciplined run past 2^64 nested saves that mutates memory with 2^64 saves open. |
| `SaveSafety.RecoveryPinsTheGate` | src/runtime/LifecycleGate.cpp:98-104 | Once a journal needs recovery, no disciplined run ever leaves Active or changes that journal. |
| `SaveSafety.RecoveryIsReachable` | src/skyrim/PatchJournal.cpp:216-223 | The classes reach that state in a disciplined run: an apply on an adapter that spoils what it writes. |
| `SaveSafety.OwnerLossPinsTheGate` | src/skyrim/ObjectPropertyJournal.cpp:317-320 | When the owner is gone at rollback nothing is written, the mutated field stays, and no disciplined run ever leaves Active again. |
| `SaveSafety.OwnerLossIsReachable` | src/skyrim/ObjectPropertyJournal.cpp:317-320 | The classes reach that loss in a disciplined run, with the field mutated. |
| `SaveSafety.Obey` | src/runtime/LifecycleGate.cpp:20-162 | One command to the classes, if the discipline allows it, is one step of the system. |
| `SaveSafety.Integrate` | src/runtime/LifecycleGate.cpp:20-162 | The three classes driven by any commands make only such runs, so memory is the baseline whenever the gate is not Active. |
| `EngineBridge.CompareIsTotalOrder` | src/skyrim/EngineBridge.cpp:90-104 | Interface versions are totally ordered by the comparison. |
| `EngineBridge.MatchesIffHolds` | src/skyrim/EngineBridge.cpp:248-278 | A runtime evaluation matches exactly when it is the admission of this executable, as a non-wrapping image, by a named record of the allowlist equal to it in every field. |
| `EngineBridge.InRangeIffBetween` | src/skyrim/EngineBridge.cpp:106-112 | The range test is the lexicographic order of the three components between both bounds. |
| `EngineBridge.ProviderCodes` | src/skyrim/EngineBridge.cpp:126-171 | Each provider diagnostic is reported exactly when its condition is the first to fail, and none exactly when runtime, listing, version, kind, variant and both version intervals all agree. |
| `EngineBridge.SymbolCodes` | src/skyrim/EngineBridge.cpp:280-320 | What a symbol is rejected with before its contract is looked at. |
| `EngineBridge.DataAndPrologueCodes` | src/skyrim/EngineBridge.cpp:321-367 | Each diagnostic of a data symbol and of a function prologue, by the first condition that fails. |
| `EngineBridge.SlotCodes` | src/skyrim/EngineBridge.cpp:368-425 | Each diagnostic of a virtual table slot and of the function it holds, by the first condition that fails. |
| `EngineBridge.ValidatedIffHolds` | src/skyrim/EngineBridge.cpp:280-425 | A symbol validates exactly when its provider agrees with runtime, allowlist and descriptor field by field, with versions in their intervals, and per-contract conditions hold; validated addresses lie in the image with no wrap in slot arithmetic. |
| `EngineBridge.SlotTells` | src/skyrim/EngineBridge.cpp:445-465 | After any number of descriptors: seen, rejected and hook-ready mean what they say, and the diagnostic is the first rejection. |
| `EngineBridge.EvaluateObserverCapabilities` | src/skyrim/EngineBridge.cpp:427-477 | A capability is ready exactly when some descriptor names it and all such validate, HookReady exactly when one also permits arming, otherwise it carries the first failing diagnostic. |
| `EngineBridge.ReportMeans` | src/skyrim/EngineBridge.cpp:427-477 | In terms of the descriptors alone: available exactly when one names the capability and all that do are good, ready for hooks exactly when one of them is besides for code, otherwise the diagnostic of the first that is not good. |
| `EngineProperties.DecodeOfEncode` | src/skyrim/ObjectPropertyJournal.cpp:70-110 | Encoding a value of the right kind and decoding the bytes gives the value back. |
| `EngineProperties.EncodeOfDecode` | src/skyrim/ObjectPropertyJournal.cpp:112-145 | Decoding bytes of the right size and encoding the value gives the bytes back. |
| `EngineProperties.EncodeLayout` | src/skyrim/ObjectPropertyJournal.cpp:70-110 | The bytes of a value by position: its pattern, or the sixteen cells in order, each least significant byte first. |
| `EngineProperties.FindByNameCodes` | src/skyrim/EngineProperties.cpp:10-111 | Every name with its property, kind, access, capability and bounds; only the two fields of view may be written. |
| `EngineProperties.ValidateCodes` | src/skyrim/EngineProperties.cpp:123-157 | A type mismatch exactly for a value of another kind, out of range exactly for a pattern that is not finite or not between the bounds. |
| `ObjectPropertyJournal.Journal.Refuse` | src/skyrim/ObjectPropertyJournal.cpp:161-228 | The gates before the field is read, first objection first. |
| `ObjectPropertyJournal.Journal.Apply` | src/skyrim/ObjectPropertyJournal.cpp:154-300 | Every apply ends in one of the listed outcomes, each fixing code, held transaction, memory and writes; without a write the code is determined by request, memory and whether a read was refused. |
| `ObjectPropertyJournal.Journal.CaptureBaseline` | src/skyrim/ObjectPropertyJournal.cpp:250-265 | A captured baseline is schema-valid, stable over two reads, and different from the replacement; otherwise the code says exactly why, a failed read only when memory is unmapped or a read was refused. |
| `ObjectPropertyJournal.Journal.Commit` | src/skyrim/ObjectPropertyJournal.cpp:267-299 | Applied means the replacement is present; rolled back means memory is untouched; otherwise only the field is in doubt. |
| `ObjectPropertyJournal.Journal.Rollback` | src/skyrim/ObjectPropertyJournal.cpp:302-364 | Every rollback ends in one of the listed outcomes; losing the owner or the field writes nothing and means recovery; a baseline mismatch is reported exactly when the field cannot be rolled back or a read was refused. |
| `ObjectPropertyJournal.Journal.Restore` | src/skyrim/ObjectPropertyJournal.cpp:339-363 | One write of the baseline, and the code says which bytes the field then shows. |
| `ObjectPropertyJournal.WriteField` | src/skyrim/ObjectPropertyJournal.cpp:272-279 | One write, or two when the first is not both reported and read back; restored means memory is unchanged. |
| `ObjectPropertyJournal.RestoreField` | src/skyrim/ObjectPropertyJournal.cpp:344-354 | Restored means the baseline is present; still means memory is unchanged. |
| `ObjectPropertyJournal.ObjectMemoryView.ReadEquals` | src/skyrim/ObjectPropertyJournal.cpp:50-59 | True exactly when the scratch buffer is large enough, memory shows the expected bytes, and the read was not refused; a failed read may scribble on the buffer. |
| `ObjectRuns.ApplyKeepsTruth` | src/skyrim/ObjectPropertyJournal.cpp:154-300 | Apply keeps the state truthful about memory relative to the bytes before the first call. |
| `ObjectRuns.RollbackKeepsTruth` | src/skyrim/ObjectPropertyJournal.cpp:302-364 | Rollback keeps the state truthful about memory relative to the bytes before the first call. |
| `ObjectRuns.EveryRunIsTruthful` | src/skyrim/ObjectPropertyJournal.cpp:154-364 | Over every run with a lying writer: Pristine is the original memory, Applied shows exactly the replacement, and only the one field is ever in doubt. |
| `ObjectRuns.CodesTellTheTruth` | src/skyrim/ObjectPropertyJournal.cpp:154-364 | Rolled-back codes mean the exact baseline, applied codes mean the replacement, owner and schema failures at rollback write nothing. |
| `ObjectRuns.RecoveryIsAbsorbing` | src/skyrim/ObjectPropertyJournal.cpp:170-172 | RecoveryRequired is never left, and nothing changes after it. |
| `ObjectRuns.RolledBackValueIsValid` | src/skyrim/ObjectPropertyJournal.cpp:357-363 | A rolled-back field decodes to a value its schema allows. |
| `ObjectRuns.LoseOwner` | src/skyrim/ObjectPropertyJournal.cpp:317-320 | The class applies a property and, its owner gone, answers the rollback with recovery. |
| `ObjectRuns.Drive` | src/skyrim/ObjectPropertyJournal.cpp:154-364 | Any sequence of calls on the class is such a run, so memory ends as the journal reports. |
| `ObjectRuns.ApplyEnginePropertyMutation` | src/skyrim/ObjectPropertyJournal.cpp:366-464 | Accepted means the named property is writable, the value meets its schema, and the field decodes to exactly it; refusals come in order and touch nothing. |
| `ObjectVerdicts.ChangesWerePermitted` | src/skyrim/ObjectPropertyJournal.cpp:161-228 | Over any step: whatever an apply changed, and whatever it reported in place, every gate was open, runtime and capability matched, the property was a field of view with a non-zero binding, thread and phase were right, the owner was current, the field declared, and its region covered it, readable, writable and not executable. |
| `ObjectVerdicts.RefusalCodes` | src/skyrim/ObjectPropertyJournal.cpp:154-265 | Each refusal is reported exactly when it is the first that applies, and touches nothing; past them, the code over an applied journal, and over a pristine one the codes of an unread, invalid or unchanged field. |
| `ObjectVerdicts.RollbackCodes` | src/skyrim/ObjectPropertyJournal.cpp:302-339 | What a rollback reports and leaves in each state, by the first obstacle in order. |
| `ObjectVerdicts.StateOfCode` | src/skyrim/ObjectPropertyJournal.cpp:154-364 | Each code says which state the journal was in and which it is left in. |
| `ObjectVerdicts.ApplyWrites` | src/skyrim/ObjectPropertyJournal.cpp:266-299 | The writes behind each code of an apply: the replacement, then the bytes found when it did not take; compensation is claimed exactly then. |
| `ObjectVerdicts.RollbackWrites` | src/skyrim/ObjectPropertyJournal.cpp:339-363 | A rollback that gets to write writes the captured bytes once, and claims compensation exactly when the field is left in doubt. |
| `ObjectVerdicts.MutationCodes` | src/skyrim/ObjectPropertyJournal.cpp:366-452 | Every mutation that never reaches the journal and the two codes it reports, the first that applies. |
| `CallbackRing.SlotSurvivesWrap` | src/runtime/CallbackSession.cpp:46-47 | A position wrapped at 2^64 picks the same slot as the unwrapped one. |
| `CallbackRing.DifferenceSurvivesWrap` | src/runtime/CallbackSession.cpp:38-44 | The wrapped difference of positions at most 64 apart is their true difference. |
| `CallbackRing.ProducePreserves` | src/runtime/CallbackSession.cpp:33-50 | No atomic step of the thunk breaks the ring invariant, whatever the drain is in the middle of. |
| `CallbackRing.ConsumePreserves` | src/runtime/CallbackSession.cpp:52-71 | No atomic step of the drain breaks the ring invariant, whatever the thunk is in the middle of. |
| `CallbackRing.CountersBalance` | src/runtime/CallbackSession.cpp:158-168 | With no call in hand, received equals enqueued plus unknown plus overflow, in the wrapped counters. |
| `CallbackRing.DrainedIsPrefix` | src/runtime/CallbackSession.cpp:33-71 | Drained records are a prefix of accepted ones, at most 64 wait undamaged, and sequence numbers are strictly increasing serials modulo 2^64. |
| `CallbackRing.OrderedIffSameRound` | src/runtime/CallbackSession.cpp:158-159 | Two accepted records fewer than 2^64 calls apart keep their order if and only if the count did not pass a multiple of 2^64 between them. |
| `CallbackRing.SequencesIncreaseIff` | src/runtime/CallbackSession.cpp:158-159 | With such gaps all accepted sequence numbers increase if and only if the first and the last belong to the same round of 2^64. |
| `CallbackRing.NextSequenceIsLargestIff` | src/runtime/CallbackSession.cpp:158-159 | Up to 2^64 calls, the record about to be published has the largest sequence number if and only if the count is below 2^64. |
| `CallbackRing.TranslateCodes` | src/runtime/CallbackSession.cpp:95-136 | The eight identifiers, their kinds in the order of their numbers, and the one kind behind each handoff; every other integer is unknown. |
| `CallbackTarget.SequenceWrapsToZero` | src/runtime/CallbackSession.cpp:158-159 | A run of 2^64 callbacks after which the accepted sequence numbers are 1 and 0. |
| `CallbackTarget.CallLeaves` | src/runtime/CallbackSession.cpp:158-168 | What one callback leaves: an unknown identifier, an accepted record, or with 64 waiting an overflow and nothing else. |
| `CallbackTarget.CallbackIsItsSteps` | src/runtime/CallbackSession.cpp:158-166 | Left alone, the atomic steps of one callback are one whole delivery. |
| `CallbackTarget.DrainIsItsSteps` | src/runtime/CallbackSession.cpp:52-71 | Left alone, the atomic steps of a drain are one whole drain. |
| `CallbackTarget.ProcessCallbackTarget.Reset` | src/runtime/CallbackSession.cpp:21-31 | Every position, every counter and the number of callbacks inside is zero, and the slots are kept. |
| `CallbackTarget.ProcessCallbackTarget.Enqueue` | src/runtime/CallbackSession.cpp:33-50 | The record is stored and published, or counted as overflow when 64 wait. |
| `CallbackTarget.ProcessCallbackTarget.Thunk` | src/runtime/CallbackSession.cpp:152-168 | A whole callback, admitted or turned away, leaves the number of callbacks inside as it was. |
| `CallbackTarget.ProcessCallbackTarget.Callback` | src/runtime/CallbackSession.cpp:158-166 | The whole effect of an admitted callback on the target. |
| `CallbackTarget.ProcessCallbackTarget.Drain` | src/runtime/CallbackSession.cpp:52-71 | Copies out the oldest waiting records in order, as many as fit, and advances past exactly those. |
| `CallbackSession.InitialInv` | src/runtime/CallbackSession.cpp:90-93 | The process starts in a state satisfying the session invariant. |
| `CallbackSession.ThunkPreserves` | src/runtime/CallbackSession.cpp:145-169 | Every access of the thunk, admission recheck included, keeps the session invariant. |
| `CallbackSession.StartPreserves` | src/runtime/CallbackSession.cpp:183-262 | Starting any operation in any session state keeps the session invariant. |
| `CallbackSession.ReservePreserves` | src/runtime/CallbackSession.cpp:282-297 | Reserving the slot keeps it, provided no thunk holds the target about to be reset. |
| `CallbackSession.ResetPreserves` | src/runtime/CallbackSession.cpp:21-31 | Each store of a reset keeps it, and after the last the ring is sound and empty. |
| `CallbackSession.UnpublishPreserves` | src/runtime/CallbackSession.cpp:320-325 | Unpublishing keeps it: no thunk that loads later can be admitted. |
| `CallbackSession.WaitPreserves` | src/runtime/CallbackSession.cpp:326-328 | Leaving the wait keeps it: no admitted thunk is left inside the target. |
| `CallbackSession.ReleasePreserves` | src/runtime/CallbackSession.cpp:330-336 | Releasing the slot keeps it, with balanced terminal diagnostics. |
| `CallbackSession.WorkerPreserves` | src/runtime/CallbackSession.cpp:282-337 | Every access of the integration thread keeps the session invariant, under the reset hypothesis. |
| `CallbackRuns.EveryRunIsSound` | src/runtime/CallbackSession.cpp:145-337 | Every state reachable by interleaving satisfies the session invariant. |
| `CallbackRuns.OneOwner` | src/runtime/CallbackSession.cpp:282-337 | In every reachable state at most one session owns the slot, only its target is published, and a free slot means every registration has been undone. |
| `CallbackRuns.EndedStaysEnded` | src/runtime/CallbackSession.cpp:235-253 | A Stopped session stays Stopped and a Failed one only becomes Stopped, over every run. |
| `CallbackRuns.QuietStaysFrozen` | src/runtime/CallbackSession.cpp:145-169 | Over every run that does not claim a quiet target, its ring and counters do not change. |
| `CallbackRuns.TeardownFreezes` | src/runtime/CallbackSession.cpp:309-337 | From the end of the wait until the target is claimed again, no thunk is inside it and its ring and counters do not change. |
| `CallbackRuns.TerminalIsFinal` | src/runtime/CallbackSession.cpp:330-332 | The kept diagnostics equal the target's counters in every later state until it is claimed again. |
| `CallbackRuns.TerminalBalances` | src/runtime/CallbackSession.cpp:330-332 | In every interleaving the kept diagnostics satisfy received = enqueued + unknown + overflow. |
| `CallbackRuns.RecordsAreKept` | src/runtime/CallbackSession.cpp:33-71 | In every reachable state no accepted record is lost, reordered or overwritten before it is drained. |
| `CallbackRuns.WaitEnds` | src/runtime/CallbackSession.cpp:326-328 | The wait ends as soon as the callback in progress has returned, and no new one can enter meanwhile. |
| `CallbackRuns.HypothesisIsExact` | src/runtime/CallbackSession.cpp:21-31 | From an activation about to reserve the slot, no interleaving puts a callback inside a target whose teardown has stopped waiting, and none miscounts, if and only if no thunk holds the target about to be reset. |
| `CallbackRuns.UnsafeResetIsReachable` | src/runtime/CallbackSession.cpp:282-298 | Three sessions and one slow callback reach such a reset with a thunk still holding the target. |
| `CallbackRuns.TeardownCanBeIntruded` | src/runtime/CallbackSession.cpp:326-330 | From there a callback gets inside a target whose teardown has stopped waiting, and its next access changes the counters. |
| `CallbackOutcomes.EndsAsAsked` | src/runtime/CallbackSession.cpp:235-253 | In every interleaving, between operations: a session is Stopped exactly when a stop was begun on it; Failed only if none was and a fail, or a bootstrap without a valid host, was; a fail with no stop has failed it; and an ended session owns nothing. |
| `CallbackOutcomes.StopEndsStopped` | src/runtime/CallbackSession.cpp:235-243 | A stop begun in any state the invariant allows ends Stopped, whatever runs meanwhile. |
| `CallbackOutcomes.FailEndsFailed` | src/runtime/CallbackSession.cpp:245-253 | A fail begun on a session that is not Stopped ends Failed unless a stop is begun meanwhile. |
| `CallbackOutcomes.EndsForCause` | src/runtime/CallbackSession.cpp:183-253 | Over every run, no session ends Stopped or Failed without an operation that asks for it. |
| `CallbackOutcomes.RefusedOperations` | src/runtime/CallbackSession.cpp:183-262 | What every operation leaves that ends before its first shared access: nothing at all, or the one state of the one session. |
| `CallbackOutcomes.ActivationEnds` | src/runtime/CallbackSession.cpp:282-306 | An accepted bootstrap or retry, once over and whatever the host did meanwhile: waiting for the slot with nothing else changed when it was taken, otherwise Active, registered once, owning the slot and the next target, which is published. |
| `CallbackOutcomes.DrainTakesWhatWaits` | src/runtime/CallbackSession.cpp:255-262 | A drain of an active session, whatever callbacks arrive meanwhile, takes as many of the oldest records as it has room for or at least all that were waiting. |
| `CallbackOutcomes.CallDelivers` | src/runtime/CallbackSession.cpp:145-169 | A callback run to its end without an operation in between changes nothing without a published target, and otherwise is exactly its delivery to that target. |
| `AddressFormat.ValueRoundTrip` | src/skyrim/AddressLibraryDatabase.cpp:104-165 | Each of the eight modes decodes the bytes that encode a representable value. |
| `AddressFormat.DecodedValueIsEncoded` | src/skyrim/AddressLibraryDatabase.cpp:104-165 | Whatever a mode decodes was representable and is encoded by exactly those bytes. |
| `AddressFormat.ValueCodes` | src/skyrim/AddressLibraryDatabase.cpp:104-165 | How many bytes each mode takes, what value it makes of them, and when it is truncated or overflows. |
| `AddressFormat.EntryRoundTrip` | src/skyrim/AddressLibraryDatabase.cpp:359-402 | A record decodes back under any admissible choice of modes and scaling. |
| `AddressFormat.DecodedEntryIsEncoded` | src/skyrim/AddressLibraryDatabase.cpp:359-402 | A record that decodes is the encoding of what it decodes to, with its offset inside the image. |
| `AddressFormat.EntryCodes` | src/skyrim/AddressLibraryDatabase.cpp:359-402 | Why a record is refused: the first of encoding, id, alignment, offset, scale and image bound that fails. |
| `AddressFormat.KindByteLayout` | src/skyrim/AddressLibraryDatabase.cpp:361-376 | The id mode in the low half of the kind byte, the offset mode above it, the scale on top. |
| `AddressFormat.EntriesRoundTrip` | src/skyrim/AddressLibraryDatabase.cpp:359-402 | Any list with offsets inside the image decodes back under any admissible choices. |
| `AddressFormat.DecodedEntriesAreEncoded` | src/skyrim/AddressLibraryDatabase.cpp:359-402 | Every stream that decodes is, byte for byte, the encoding of what it decodes to. |
| `AddressFormat.RecordsChain` | src/skyrim/AddressLibraryDatabase.cpp:355-402 | Every record of a decoded stream is decoded from its own place in it, relative to the record before it. |
| `AddressPayload.HeaderRoundTrip` | src/skyrim/AddressLibraryDatabase.cpp:307-353 | Format, version, name, pointer size and count decode back. |
| `AddressPayload.HeaderIsEncoded` | src/skyrim/AddressLibraryDatabase.cpp:307-353 | A header that decodes is the encoding of some name and count. |
| `AddressPayload.HeaderCodes` | src/skyrim/AddressLibraryDatabase.cpp:307-353 | The header by byte position, and why it is refused: the first of format, version, name, pointer size and count that fails. |
| `AddressPayload.DecodesIffEncoded` | src/skyrim/AddressLibraryDatabase.cpp:306-406 | A payload decodes to a list exactly when it is some encoding of that list and nothing else. |
| `AddressPayload.PayloadRoundTrip` | src/skyrim/AddressLibraryDatabase.cpp:306-406 | Any non-empty list of fewer than 2^31 records decodes back; bytes after it are trailing data. |
| `AddressPayload.StepsFromZero` | src/skyrim/AddressLibraryDatabase.cpp:355-402 | The stream starts from id 0 and offset 0 and steps from record to record: two bytes that step up by one give (1, 1) and (2, 2). |
| `AddressPayload.PrefixFree` | src/skyrim/AddressLibraryDatabase.cpp:404-406 | No proper extension of an accepted payload is accepted. |
| `AddressPayload.EarlyCountCheckIsExact` | src/skyrim/AddressLibraryDatabase.cpp:350-353 | The early count check turns away only streams the record loop would have failed. |
| `AddressLibrary.ByteReader.ReadUnsigned` | src/skyrim/AddressLibraryDatabase.cpp:20-34 | Consumes exactly the width and yields its little-endian value, or consumes nothing. |
| `AddressLibrary.ByteReader.ReadSigned32` | src/skyrim/AddressLibraryDatabase.cpp:36-44 | The two's complement reading of four bytes. |
| `AddressLibrary.ByteReader.Skip` | src/skyrim/AddressLibraryDatabase.cpp:46-53 | Skips exactly the size, or nothing. |
| `AddressLibrary.ReadValue` | src/skyrim/AddressLibraryDatabase.cpp:104-165 | The mode switch refines the functional decoder. |
| `AddressLibrary.ReadOffset` | src/skyrim/AddressLibraryDatabase.cpp:375-397 | Scaling, its overflow and alignment checks and the image bound refine the functional decoder. |
| `AddressLibrary.ReadEntries` | src/skyrim/AddressLibraryDatabase.cpp:357-402 | The record loop with its running predecessor refines the functional decoder, error codes included. |
| `AddressLibrary.ReadHeader` | src/skyrim/AddressLibraryDatabase.cpp:308-353 | The header checks refine the functional decoder, error codes included. |
| `AddressLibrary.PermutationDistinct` | src/skyrim/AddressLibraryDatabase.cpp:407-415 | Sorting neither creates nor hides a duplicate id. |
| `AddressLibrary.HasAdjacentDuplicate` | src/skyrim/AddressLibraryDatabase.cpp:408-415 | On a sorted list, equal neighbours exist exactly when two ids are equal anywhere. |
| `AddressLibrary.ParsePayload` | src/skyrim/AddressLibraryDatabase.cpp:306-423 | Past the gates the result is decided by the decoder: its error, DuplicateId, or the id-sorted permutation of the records. |
| `AddressLibrary.ParseAddressLibraryV2` | src/skyrim/AddressLibraryDatabase.cpp:287-429 | The gates in order, then the payload outcome; a rejection carries no entries. |
| `AddressLibrary.GateCodes` | src/skyrim/AddressLibraryDatabase.cpp:287-304 | Each gate has its own diagnostic, reported exactly when it is the first to fail: other bytes, an artifact no record equals field by field, another size, no image. |
| `AddressLibrary.AdmissionMeans` | src/skyrim/AddressLibraryDatabase.cpp:214-243 | A receipt is handed out exactly for a listed library of the listed size whose digest was verified; those bytes then parse by their payload alone and any others are turned away. |
| `AddressLibrary.ReadyIffEncoded` | src/skyrim/AddressLibraryDatabase.cpp:287-429 | Ready exactly when the payload encodes some records with distinct ids, and then the entries are those records sorted. |
| `AddressLibrary.ResolveOffset` | src/skyrim/AddressLibraryDatabase.cpp:245-263 | Binary search answers what a linear search of the entries answers, for every id. |
| `AddressLibrary.LookupAgreesWithStream` | src/skyrim/AddressLibraryDatabase.cpp:245-263 | Lookup in a Ready result agrees with a linear search of the decoded stream. |
| `AddressLibrary.ResolveAddress` | src/skyrim/AddressLibraryDatabase.cpp:265-285 | An answer exists exactly for a known id with its offset inside a valid image, and lies in that image without wrapping. |
| `HostResolver.CollectCandidates` | src/enb/LoadedHostResolver.cpp:106-124 | Candidates are exactly the anchored modules in order, unless one lacks an export. |
| `HostResolver.ChooseCandidate` | src/enb/LoadedHostResolver.cpp:136-156 | The first incompatibility if there is any, else the first candidate and the number of them. |
| `HostResolver.ResolveLoadedEnbHost` | src/enb/LoadedHostResolver.cpp:86-176 | The result for every enumeration status and every module list. |
| `HostResolver.ResolvedIffOneHost` | src/enb/LoadedHostResolver.cpp:86-176 | Resolved exactly when one listing alone has the anchor export, has all eight, and validates or is merely not ready; the result names it. |
| `HostResolver.NeverCandidateRejected` | src/enb/LoadedHostResolver.cpp:69-82 | The fallback code is never returned. |
| `HostResolver.ValidationCodes` | src/enb/SdkContract.cpp:56-98 | The first missing export; and with none missing what the version, the game and the render information say, in that order. |
| `HostResolver.ResolutionCodes` | src/enb/LoadedHostResolver.cpp:106-176 | Each code in terms of the listed modules and what their exports answer, the first failing host deciding among incompatibilities; a resolution carries the eight exports of a listed module. |
| `HostResolver.OrderDoesNotMatter` | src/enb/LoadedHostResolver.cpp:109-176 | Reordering the list changes nothing except which of several incompatibilities is reported. |
| `HostResolver.OrderIsIrrelevantIff` | src/enb/LoadedHostResolver.cpp:109-176 | Every reordering of the list gives the same answer if and only if some anchored module lacks an export or all that fail validation fail alike. |
| `HostResolver.OrderPicksTheIncompatibility` | src/enb/LoadedHostResolver.cpp:145-147 | Of two failing hosts the first is reported, so swapping them shows exactly when they fail differently. |
| `HostResolver.OrderCanShow` | src/enb/LoadedHostResolver.cpp:145-147 | A platform on which swapping two modules changes the code. |
| `HostResolver.ListedTwiceIsAmbiguous` | src/enb/LoadedHostResolver.cpp:161-163 | A compatible host listed twice is ambiguous. |
| `WrapperFingerprint.CompareBuild` | src/enb/WrapperFingerprint.cpp:24-45 | A field is flagged exactly when it differs, so nothing is flagged exactly when all five agree. |
| `WrapperFingerprint.ClassifyWrapperBuild` | src/enb/WrapperFingerprint.cpp:98-141 | The first record that differs least, with its differences; known exactly when the fingerprint is listed; and each admission exactly for its policy and evidence. |
| `WrapperFingerprint.PolicyDecidesNothingElse` | src/enb/WrapperFingerprint.cpp:98-141 | Policy never changes the build, the mismatches or the index. |
| `WrapperFingerprint.CleanMeansKnownIffListed` | src/enb/WrapperFingerprint.cpp:111-140 | No mismatches mean a known build exactly when the allowlist is not empty. |
| `FileVersion.ReadNumber` | src/platform/windows/WindowsWrapperFingerprintPlatform.cpp:402-413 | The 32-bit accumulator never wraps: a digit run of any length is accepted exactly when its value is at most 65535. |
| `FileVersion.Alphabet` | src/platform/windows/WindowsWrapperFingerprintPlatform.cpp:380-430 | The whitespace, the separators, and the digits with their values. |
| `FileVersion.SpellingsParse` | src/platform/windows/WindowsWrapperFingerprintPlatform.cpp:385-436 | Every text spelling the numbers parses to them. |
| `FileVersion.ParsedIsSpelled` | src/platform/windows/WindowsWrapperFingerprintPlatform.cpp:385-436 | Every text that parses spells what it parses to. |
| `FileVersion.ParseFourPartVersion` | src/platform/windows/WindowsWrapperFingerprintPlatform.cpp:385-436 | Accepts exactly the texts spelling four 16-bit numbers with comma or dot and optional whitespace; failure leaves the output untouched. |
| `FileVersion.PrintSpells` | src/platform/windows/WindowsWrapperFingerprintPlatform.cpp:385-436 | Printing numbers in any legal layout parses back to them. |
| `FileVersion.SpellingIsUnambiguous` | src/platform/windows/WindowsWrapperFingerprintPlatform.cpp:385-436 | A text spells at most one version. |

## Left out

- Windows calls (module enumeration, GetProcAddress, file reading, hashing, version resources): foreign input and output.
- SHA-256 and the concrete allowlist contents: digests are opaque and their verification is a parameter.
- `FramePulse` and `CameraPublication`: short guard chains.
- `ObserveEngineProperty`, `EvaluateRuntimeIdentity`, `ValidateParameter` and the inspection of wrapper files: single-branch checks.
- Exceptions and allocation failure, and so the `AllocationFailure` diagnostic.
- C++ memory orders weaker than sequential consistency, and more than one host thread inside the thunk.
- Session operations are steps of a state machine over values rather than methods of a class, because they interleave with the thunk at every access; their result codes (AlreadyActive, InvalidResolution and so on) and aliasing between sessions are not captured; the states they go with are. A destroyed session is one that has been stopped.
- `SaveSafety` gives each journal its own memory: that the heap field lies outside the patched module is not checked.
- Ring slots are copied in one step each; tearing inside a record, which the ring invariant rules out, is not modelled.
- The capability arrays `seen`, `rejected` and `hook_ready` are one record per capability.
- Mismatch flags are a set of fields rather than bits of a byte.
- Entries are kept as sequences rather than vectors, so moved-from vectors are not modelled.
- Which read was refused is not part of an outcome, only that one was while the call was checking; read-backs after a write show in the code instead.
- Liveness beyond `CallbackRuns.WaitEnds`: nothing is said about scheduling.
