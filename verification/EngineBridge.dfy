/** Runtime admission, symbol validation, and the capability report. */
module EngineBridge {
  import opened Words
  import opened Memory

  const CAPABILITY_COUNT: nat := 6
  const MAX_PROLOGUE: nat := 128
  const POINTER_SIZE: nat := 8

  type Digest = seq<byte>

  datatype RuntimeVersion = RuntimeVersion(major: UInt16, minor: UInt16, patch: UInt16, build: UInt16)
  datatype InterfaceVersion = InterfaceVersion(major: UInt16, minor: UInt16, patch: UInt16)
  datatype Architecture = UnknownArchitecture | X64
  datatype RuntimeStatus = RuntimeRejected | RuntimeAdmitted
  datatype RuntimeDiagnostic =
    | RuntimeOk | InvalidModuleName | UnsupportedArchitecture
    | InvalidModuleRange | IncompleteFingerprint | UnsupportedFingerprint
  datatype ProviderKind = NoProvider | AddressLibrary
  datatype RuntimeVariant = NoVariant | SpecialEdition | AnniversaryEdition

  datatype ExecutableIdentity = ExecutableIdentity(
    moduleName: string, originalFilename: string, version: RuntimeVersion, architecture: Architecture,
    sha256: Digest, fileSize: Word, imageBase: Word, imageSize: Word)

  datatype RuntimeEvaluation = RuntimeEvaluation(
    status: RuntimeStatus, diagnostic: RuntimeDiagnostic, matchedRecord: nat, originalFilename: string,
    version: RuntimeVersion, sha256: Digest, fileSize: Word, imageBase: Word, imageSize: Word)

  datatype RuntimeSupportRecord = RuntimeSupportRecord(
    identifier: string, originalFilename: string, version: RuntimeVersion, architecture: Architecture,
    sha256: Digest, fileSize: Word)

  datatype ProviderRecord = ProviderRecord(
    identifier: string, kind: ProviderKind, version: RuntimeVersion, variant: RuntimeVariant,
    sha256: Digest, fileSize: Word)

  /** The two compiled-in allowlists. */
  datatype Allowlists = Allowlists(runtimes: seq<RuntimeSupportRecord>, providers: seq<ProviderRecord>)

  predicate MatchesSupportedRuntime(lists: Allowlists, identity: ExecutableIdentity, runtime: RuntimeEvaluation) {
    && runtime.status == RuntimeAdmitted
    && runtime.diagnostic == RuntimeOk
    && runtime.matchedRecord < |lists.runtimes|
    && identity.moduleName == "SkyrimSE.exe"
    && identity.architecture == X64
    && identity.imageBase != 0
    && identity.imageSize != 0
    && identity.imageBase <= WORD_LIMIT - 1 - identity.imageSize
    && runtime.originalFilename == identity.originalFilename
    && runtime.version == identity.version
    && runtime.sha256 == identity.sha256
    && runtime.fileSize == identity.fileSize
    && runtime.imageBase == identity.imageBase
    && runtime.imageSize == identity.imageSize
    && var record := lists.runtimes[runtime.matchedRecord];
       && record.identifier != ""
       && record.originalFilename == identity.originalFilename
       && record.version == identity.version
       && record.architecture == identity.architecture
       && record.sha256 == identity.sha256
       && record.fileSize == identity.fileSize
  }

  /** The evaluation admits exactly this executable, as a non-wrapping image of Skyrim for x64, by a named
      record of the allowlist that agrees with it in every field. */
  predicate RuntimeHolds(lists: Allowlists, identity: ExecutableIdentity, runtime: RuntimeEvaluation) {
    && identity.moduleName == "SkyrimSE.exe" && identity.architecture == X64
    && ImageFits(identity)
    && runtime == RuntimeEvaluation(
         RuntimeAdmitted, RuntimeOk, runtime.matchedRecord, identity.originalFilename,
         identity.version, identity.sha256, identity.fileSize, identity.imageBase, identity.imageSize)
    && runtime.matchedRecord < |lists.runtimes|
    && var record := lists.runtimes[runtime.matchedRecord];
       && record.identifier != ""
       && record == RuntimeSupportRecord(
            record.identifier, identity.originalFilename, identity.version, identity.architecture, identity.sha256, identity.fileSize)
  }

  lemma MatchesIffHolds(lists: Allowlists, identity: ExecutableIdentity, runtime: RuntimeEvaluation)
    ensures MatchesSupportedRuntime(lists, identity, runtime) <==> RuntimeHolds(lists, identity, runtime)
  {
  }

  // ---- Symbol descriptors ----

  datatype SymbolContract =
    | ReadOnlyData | CompleteFunctionPrologue | DeclaredVtableSlot
    | OtherContract(code: byte)

  datatype Constraint = Constraint(
    version: RuntimeVersion, kind: ProviderKind, variant: RuntimeVariant,
    minimumProvider: InterfaceVersion, maximumProvider: InterfaceVersion,
    minimumAdapter: InterfaceVersion, maximumAdapter: InterfaceVersion)

  datatype SymbolDescriptor = SymbolDescriptor(
    identifier: string, capability: byte, relocationId: Word, constraints: Constraint, contract: SymbolContract,
    expectedInstructions: seq<byte>, vtableSlot: Word, expectedRtti: string)

  datatype ProviderContext = ProviderContext(
    available: bool, kind: ProviderKind, version: RuntimeVersion, variant: RuntimeVariant,
    providerVersion: InterfaceVersion, sha256: Digest, fileSize: Word, adapterVersion: InterfaceVersion)

  datatype SymbolDiagnostic =
    | NoDiagnostic | RuntimeRejectedDiagnostic | RuntimeIdentityMismatch
    | RelocationProviderUnavailable | RelocationProviderUnsupported | RelocationRuntimeMismatch
    | ProviderVersionUnsupported | InvalidDescriptor | AddressUnresolved
    | AddressOutsideModule | RegionUnavailable | RegionNotReadable | RegionNotExecutable
    | InstructionReadFailed | InstructionBytesMismatch | RttiIdentityMismatch
    | VtableEntryReadFailed | MissingDescriptor

  datatype SymbolValidation =
    | Rejected(diagnostic: SymbolDiagnostic)
    | Validated(resolved: Word, patch: Word, armable: bool)

  /** What the read-only memory adapter answers while one report is made: relocation lookups, regions,
      which reads succeed and the bytes they deliver, and RTTI matches. */
  datatype Answers = Answers(
    relocation: Word -> Option<Word>,
    region: RegionMap,
    readable: (Word, nat) -> bool,
    byteAt: int -> byte,
    rtti: (Word, string) -> bool)
  {
    function Read(address: Word, size: nat): (bytes: Option<seq<byte>>)
      ensures bytes.Some? ==> |bytes.value| == size
    {
      if readable(address, size) then Some(seq(size, i => byteAt(address + i))) else None
    }
  }

  /** -1, 0 or 1 for an earlier, equal or later interface version. */
  function Compare(left: InterfaceVersion, right: InterfaceVersion): int {
    if left.major != right.major then (if left.major < right.major then -1 else 1)
    else if left.minor != right.minor then (if left.minor < right.minor then -1 else 1)
    else if left.patch != right.patch then (if left.patch < right.patch then -1 else 1)
    else 0
  }

  predicate VersionInRange(value: InterfaceVersion, minimum: InterfaceVersion, maximum: InterfaceVersion) {
    Compare(value, minimum) >= 0 && Compare(value, maximum) <= 0
  }

  /** The version comparison is a total order: antisymmetric and transitive. */
  lemma CompareIsTotalOrder(a: InterfaceVersion, b: InterfaceVersion, c: InterfaceVersion)
    ensures Compare(a, b) == -Compare(b, a)
    ensures Compare(a, b) == 0 <==> a == b
    ensures Compare(a, b) <= 0 && Compare(b, c) <= 0 ==> Compare(a, c) <= 0
  {
  }

  predicate ProviderListed(lists: Allowlists, provider: ProviderContext) {
    exists i | 0 <= i < |lists.providers| ::
      var record := lists.providers[i];
      && provider.kind == record.kind
      && provider.version == record.version
      && provider.variant == record.variant
      && provider.sha256 == record.sha256
      && provider.fileSize == record.fileSize
  }

  function ValidateProvider(
    lists: Allowlists, identity: ExecutableIdentity, runtime: RuntimeEvaluation,
    provider: ProviderContext, descriptor: SymbolDescriptor): SymbolDiagnostic
  {
    var constraints := descriptor.constraints;
    if runtime.status != RuntimeAdmitted then RuntimeRejectedDiagnostic
    else if !MatchesSupportedRuntime(lists, identity, runtime) then RuntimeIdentityMismatch
    else if !provider.available then RelocationProviderUnavailable
    else if !ProviderListed(lists, provider) then RelocationProviderUnsupported
    else if provider.version != identity.version
         || constraints.version != identity.version
         || provider.kind != constraints.kind
         || provider.variant != constraints.variant then RelocationRuntimeMismatch
    else if !VersionInRange(provider.providerVersion, constraints.minimumProvider, constraints.maximumProvider)
         || !VersionInRange(provider.adapterVersion, constraints.minimumAdapter, constraints.maximumAdapter) then
      ProviderVersionUnsupported
    else NoDiagnostic
  }

  /** Versions are compared by major, then minor, then patch number. */
  predicate AtMost(a: InterfaceVersion, b: InterfaceVersion) {
    a.major < b.major || (a.major == b.major && (a.minor < b.minor || (a.minor == b.minor && a.patch <= b.patch)))
  }

  lemma InRangeIffBetween(value: InterfaceVersion, minimum: InterfaceVersion, maximum: InterfaceVersion)
    ensures VersionInRange(value, minimum, maximum) <==> AtMost(minimum, value) && AtMost(value, maximum)
  {
  }

  /** The allowlist has the provider's artifact, under some name. */
  predicate ArtifactListed(lists: Allowlists, provider: ProviderContext) {
    exists i | 0 <= i < |lists.providers| ::
      lists.providers[i] == ProviderRecord(
        lists.providers[i].identifier, provider.kind, provider.version, provider.variant, provider.sha256, provider.fileSize)
  }

  /** Runtime, provider and descriptor are about the same version and kind of the game. */
  predicate SameRuntime(identity: ExecutableIdentity, provider: ProviderContext, constraints: Constraint) {
    && provider.version == identity.version && constraints.version == identity.version
    && provider.kind == constraints.kind && provider.variant == constraints.variant
  }

  /** Provider and adapter are within the versions the descriptor allows. */
  predicate VersionsAllowed(provider: ProviderContext, constraints: Constraint) {
    && AtMost(constraints.minimumProvider, provider.providerVersion) && AtMost(provider.providerVersion, constraints.maximumProvider)
    && AtMost(constraints.minimumAdapter, provider.adapterVersion) && AtMost(provider.adapterVersion, constraints.maximumAdapter)
  }

  predicate ProviderHolds(
    lists: Allowlists, identity: ExecutableIdentity, runtime: RuntimeEvaluation,
    provider: ProviderContext, descriptor: SymbolDescriptor)
  {
    && RuntimeHolds(lists, identity, runtime)
    && provider.available
    && ArtifactListed(lists, provider)
    && SameRuntime(identity, provider, descriptor.constraints)
    && VersionsAllowed(provider, descriptor.constraints)
  }

  /** Which diagnostic a provider gets: the first thing wrong, in this order; none exactly when all holds. */
  lemma ProviderCodes(
    lists: Allowlists, identity: ExecutableIdentity, runtime: RuntimeEvaluation,
    provider: ProviderContext, descriptor: SymbolDescriptor)
    ensures var diagnostic := ValidateProvider(lists, identity, runtime, provider, descriptor);
            if runtime.status != RuntimeAdmitted then diagnostic == RuntimeRejectedDiagnostic
            else if !RuntimeHolds(lists, identity, runtime) then diagnostic == RuntimeIdentityMismatch
            else if !provider.available then diagnostic == RelocationProviderUnavailable
            else if !ArtifactListed(lists, provider) then diagnostic == RelocationProviderUnsupported
            else if !SameRuntime(identity, provider, descriptor.constraints) then diagnostic == RelocationRuntimeMismatch
            else if !VersionsAllowed(provider, descriptor.constraints) then diagnostic == ProviderVersionUnsupported
            else diagnostic == NoDiagnostic
    ensures ValidateProvider(lists, identity, runtime, provider, descriptor) == NoDiagnostic <==>
            ProviderHolds(lists, identity, runtime, provider, descriptor)
  {
    var constraints := descriptor.constraints;
    MatchesIffHolds(lists, identity, runtime);
    InRangeIffBetween(provider.providerVersion, constraints.minimumProvider, constraints.maximumProvider);
    InRangeIffBetween(provider.adapterVersion, constraints.minimumAdapter, constraints.maximumAdapter);
    ListedIff(lists, provider);
    hide MatchesSupportedRuntime, VersionInRange, ProviderListed, ArtifactListed, AtMost;
  }

  lemma ListedIff(lists: Allowlists, provider: ProviderContext)
    ensures ProviderListed(lists, provider) <==> ArtifactListed(lists, provider)
  {
  }

  function ValidateData(resolved: Word, answers: Answers): SymbolValidation {
    var region := answers.region(resolved, 1);
    if region == None || !RegionContains(region.value, resolved, 1) then Rejected(RegionUnavailable)
    else if !region.value.readable then Rejected(RegionNotReadable)
    else Validated(resolved, resolved, false)
  }

  function ValidatePrologue(
    identity: ExecutableIdentity, resolved: Word, descriptor: SymbolDescriptor, answers: Answers): SymbolValidation
  {
    var size := |descriptor.expectedInstructions|;
    if !Contains(identity.imageBase, identity.imageSize, resolved, size) then Rejected(AddressOutsideModule)
    else
      var region := answers.region(resolved, size);
      if region == None || !RegionContains(region.value, resolved, size) then Rejected(RegionUnavailable)
      else if !region.value.readable then Rejected(RegionNotReadable)
      else if !region.value.executable then Rejected(RegionNotExecutable)
      else if size > MAX_PROLOGUE then Rejected(InvalidDescriptor)
      else
        var observed := answers.Read(resolved, size);
        if observed == None then Rejected(InstructionReadFailed)
        else if observed.value != descriptor.expectedInstructions then Rejected(InstructionBytesMismatch)
        else Validated(resolved, resolved, true)
  }

  function ValidateSlot(
    identity: ExecutableIdentity, resolved: Word, descriptor: SymbolDescriptor, answers: Answers): SymbolValidation
  {
    if descriptor.contract != DeclaredVtableSlot || descriptor.vtableSlot > (WORD_LIMIT - 1) / POINTER_SIZE then
      Rejected(InvalidDescriptor)
    else
      var slotOffset: Word := descriptor.vtableSlot * POINTER_SIZE;
      if resolved > WORD_LIMIT - 1 - slotOffset then Rejected(AddressOutsideModule)
      else
        var slot: Word := resolved + slotOffset;
        if !Contains(identity.imageBase, identity.imageSize, slot, POINTER_SIZE) then Rejected(AddressOutsideModule)
        else
          var region := answers.region(slot, POINTER_SIZE);
          if region == None || !RegionContains(region.value, slot, POINTER_SIZE) then Rejected(RegionUnavailable)
          else if !region.value.readable then Rejected(RegionNotReadable)
          else if !answers.rtti(resolved, descriptor.expectedRtti) then Rejected(RttiIdentityMismatch)
          else
            var pointer := answers.Read(slot, POINTER_SIZE);
            if pointer == None then Rejected(VtableEntryReadFailed)
            else ValidateTarget(identity, slot, pointer.value, answers)
  }

  function ValidateTarget(identity: ExecutableIdentity, slot: Word, pointer: seq<byte>, answers: Answers): SymbolValidation
    requires |pointer| == POINTER_SIZE
  {
    PowerValues();
    var target: Word := FromLittleEndian(pointer);
    if !Contains(identity.imageBase, identity.imageSize, target, 1) then Rejected(AddressOutsideModule)
    else
      var region := answers.region(target, 1);
      if region == None || !RegionContains(region.value, target, 1) then Rejected(RegionUnavailable)
      else if !region.value.readable then Rejected(RegionNotReadable)
      else if !region.value.executable then Rejected(RegionNotExecutable)
      else Validated(target, slot, true)
  }

  function ValidateSymbol(
    lists: Allowlists, identity: ExecutableIdentity, runtime: RuntimeEvaluation,
    provider: ProviderContext, descriptor: SymbolDescriptor, answers: Answers): SymbolValidation
  {
    var providerDiagnostic := ValidateProvider(lists, identity, runtime, provider, descriptor);
    if providerDiagnostic != NoDiagnostic then Rejected(providerDiagnostic)
    else if descriptor.identifier == "" || descriptor.relocationId == 0 then Rejected(InvalidDescriptor)
    else if descriptor.contract == CompleteFunctionPrologue && descriptor.expectedInstructions == [] then
      Rejected(InvalidDescriptor)
    else if descriptor.contract == DeclaredVtableSlot && descriptor.expectedRtti == "" then Rejected(InvalidDescriptor)
    else
      var resolved := answers.relocation(descriptor.relocationId);
      if resolved == None then Rejected(AddressUnresolved)
      else if !Contains(identity.imageBase, identity.imageSize, resolved.value, 1) then Rejected(AddressOutsideModule)
      else if descriptor.contract == ReadOnlyData then ValidateData(resolved.value, answers)
      else if descriptor.contract == CompleteFunctionPrologue then
        ValidatePrologue(identity, resolved.value, descriptor, answers)
      else ValidateSlot(identity, resolved.value, descriptor, answers)
  }

  /** The region the adapter reports covers the whole range and has the given protections. */
  predicate RegionServes(answers: Answers, address: Word, size: nat, executable: bool) {
    var region := answers.region(address, size);
    && region.Some?
    && region.value.base != 0 && size != 0
    && region.value.base <= address && address + size <= region.value.base + region.value.size
    && region.value.readable
    && (executable ==> region.value.executable)
  }

  predicate InImage(identity: ExecutableIdentity, address: int, size: nat) {
    identity.imageBase <= address && address + size <= identity.imageBase + identity.imageSize
  }

  ghost predicate PrologueHolds(identity: ExecutableIdentity, resolved: Word, code: seq<byte>, answers: Answers) {
    && 0 < |code| <= MAX_PROLOGUE
    && InImage(identity, resolved, |code|)
    && RegionServes(answers, resolved, |code|, true)
    && answers.readable(resolved, |code|)
    && forall i | 0 <= i < |code| :: answers.byteAt(resolved + i) == code[i]
  }

  ghost predicate SlotHolds(identity: ExecutableIdentity, resolved: Word, descriptor: SymbolDescriptor, answers: Answers) {
    var slot := resolved + 8 * descriptor.vtableSlot;
    && descriptor.expectedRtti != ""
    && InImage(identity, slot, 8)
    && slot < WORD_LIMIT
    && RegionServes(answers, slot, 8, false)
    && answers.rtti(resolved, descriptor.expectedRtti)
    && answers.readable(slot, 8)
    && TargetHolds(identity, FromLittleEndian(seq(8, i => answers.byteAt(slot + i))), answers)
  }

  ghost predicate TargetHolds(identity: ExecutableIdentity, target: nat, answers: Answers) {
    target < WORD_LIMIT && InImage(identity, target, 1) && RegionServes(answers, target, 1, true)
  }

  /** When a descriptor whose provider is acceptable names a usable symbol, stated per contract. */
  ghost predicate SymbolHolds(identity: ExecutableIdentity, descriptor: SymbolDescriptor, answers: Answers) {
    && descriptor.identifier != ""
    && descriptor.relocationId != 0
    && answers.relocation(descriptor.relocationId).Some?
    && var resolved := answers.relocation(descriptor.relocationId).value;
       && InImage(identity, resolved, 1)
       && match descriptor.contract
          case ReadOnlyData => RegionServes(answers, resolved, 1, false)
          case CompleteFunctionPrologue => PrologueHolds(identity, resolved, descriptor.expectedInstructions, answers)
          case DeclaredVtableSlot => SlotHolds(identity, resolved, descriptor, answers)
          case OtherContract(_) => false
  }

  /** The image is a non-empty range that does not wrap. */
  predicate ImageFits(identity: ExecutableIdentity) {
    identity.imageBase != 0 && identity.imageSize != 0 && identity.imageBase + identity.imageSize < WORD_LIMIT
  }

  /** What a reported region must be, in terms of addresses. */
  lemma RegionMeans(answers: Answers, address: Word, size: nat)
    ensures var region := answers.region(address, size);
            region.Some? ==>
              (RegionContains(region.value, address, size) <==>
               region.value.base != 0 && size != 0
               && region.value.base <= address && address + size <= region.value.base + region.value.size)
  {
    hide Contains;
    var region := answers.region(address, size);
    if region.Some? {
      ContainsIsInclusion(region.value.base, region.value.size, address, size);
    }
  }

  lemma DataValidates(resolved: Word, answers: Answers)
    ensures ValidateData(resolved, answers).Validated? <==> RegionServes(answers, resolved, 1, false)
    ensures ValidateData(resolved, answers).Validated? ==> ValidateData(resolved, answers) == Validated(resolved, resolved, false)
  {
    hide RegionContains;
    RegionMeans(answers, resolved, 1);
  }

  lemma PrologueValidates(identity: ExecutableIdentity, resolved: Word, descriptor: SymbolDescriptor, answers: Answers)
    requires ImageFits(identity) && descriptor.expectedInstructions != []
    ensures var v := ValidatePrologue(identity, resolved, descriptor, answers);
            && (v.Validated? <==> PrologueHolds(identity, resolved, descriptor.expectedInstructions, answers))
            && (v.Validated? ==> v == Validated(resolved, resolved, true))
  {
    hide Contains, RegionContains;
    var code := descriptor.expectedInstructions;
    RegionMeans(answers, resolved, |code|);
    ContainsIsInclusion(identity.imageBase, identity.imageSize, resolved, |code|);
    var observed := seq(|code|, i => answers.byteAt(resolved + i));
    assert observed == code <==> forall i | 0 <= i < |code| :: answers.byteAt(resolved + i) == code[i] by {
      if observed == code {
        forall i | 0 <= i < |code| ensures answers.byteAt(resolved + i) == code[i] {
          assert observed[i] == code[i];
        }
      }
    }
  }

  lemma TargetValidates(identity: ExecutableIdentity, slot: Word, pointer: seq<byte>, answers: Answers)
    requires ImageFits(identity) && |pointer| == POINTER_SIZE
    ensures var v := ValidateTarget(identity, slot, pointer, answers);
            && (v.Validated? <==> TargetHolds(identity, FromLittleEndian(pointer), answers))
            && (v.Validated? ==> v == Validated(FromLittleEndian(pointer), slot, true))
  {
    hide Contains, RegionContains;
    PowerValues();
    var target := FromLittleEndian(pointer);
    RegionMeans(answers, target, 1);
    ContainsIsInclusion(identity.imageBase, identity.imageSize, target, 1);
  }

  lemma SlotValidates(identity: ExecutableIdentity, resolved: Word, descriptor: SymbolDescriptor, answers: Answers)
    requires ImageFits(identity) && descriptor.contract.DeclaredVtableSlot? && descriptor.expectedRtti != ""
    ensures var v := ValidateSlot(identity, resolved, descriptor, answers);
            && (v.Validated? <==> SlotHolds(identity, resolved, descriptor, answers))
            && (v.Validated? ==> v.armable && v.patch == resolved + 8 * descriptor.vtableSlot && InImage(identity, v.resolved, 1))
  {
    var slot := resolved + 8 * descriptor.vtableSlot;
    hide Contains, RegionContains;
    if slot < WORD_LIMIT {
      RegionMeans(answers, slot, 8);
      ContainsIsInclusion(identity.imageBase, identity.imageSize, slot, 8);
      TargetValidates(identity, slot, seq(8, i => answers.byteAt(slot + i)), answers);
    }
    hide ValidateTarget;
  }

  /** A symbol validates exactly when its provider is acceptable and the declarative conditions hold;
      arming is permitted exactly for the two code contracts; and every address a validated symbol
      carries lies in the loaded image, where no address arithmetic has wrapped. */
  lemma ValidatedIffHolds(
    lists: Allowlists, identity: ExecutableIdentity, runtime: RuntimeEvaluation,
    provider: ProviderContext, descriptor: SymbolDescriptor, answers: Answers)
    ensures var v := ValidateSymbol(lists, identity, runtime, provider, descriptor, answers);
            && (v.Validated? <==>
                ProviderHolds(lists, identity, runtime, provider, descriptor)
                && SymbolHolds(identity, descriptor, answers))
            && (v.Validated? ==>
                && (v.armable <==> descriptor.contract != ReadOnlyData)
                && InImage(identity, v.resolved, 1)
                && InImage(identity, v.patch, if v.armable then
                     (if descriptor.contract.DeclaredVtableSlot? then 8 else |descriptor.expectedInstructions|) else 1)
                && identity.imageBase + identity.imageSize < WORD_LIMIT)
  {
    ProviderCodes(lists, identity, runtime, provider, descriptor);
    if ValidateProvider(lists, identity, runtime, provider, descriptor) == NoDiagnostic
       && answers.relocation(descriptor.relocationId).Some? {
      var resolved := answers.relocation(descriptor.relocationId).value;
      ContainsIsInclusion(identity.imageBase, identity.imageSize, resolved, 1);
      match descriptor.contract
      case ReadOnlyData => DataValidates(resolved, answers);
      case CompleteFunctionPrologue =>
        if descriptor.expectedInstructions != [] {
          PrologueValidates(identity, resolved, descriptor, answers);
        }
      case DeclaredVtableSlot =>
        if descriptor.expectedRtti != "" {
          SlotValidates(identity, resolved, descriptor, answers);
        }
      case OtherContract(_) =>
    }
    hide Contains, ValidateProvider, ValidateData, ValidatePrologue, RegionServes;
  }

  /** The region the adapter reports for a range covers it. */
  predicate Covered(answers: Answers, address: Word, size: nat) {
    var region := answers.region(address, size);
    && region.Some? && region.value.base != 0
    && region.value.base <= address && address + size <= region.value.base + region.value.size
  }

  /** Which diagnostic a symbol gets once its provider is acceptable and it resolves into the image: the first
      thing wrong, in this order, for a symbol that is only read and for one that is called. */
  lemma DataAndPrologueCodes(
    lists: Allowlists, identity: ExecutableIdentity, runtime: RuntimeEvaluation,
    provider: ProviderContext, descriptor: SymbolDescriptor, answers: Answers)
    requires ProviderHolds(lists, identity, runtime, provider, descriptor)
    requires descriptor.identifier != "" && descriptor.relocationId != 0
    requires answers.relocation(descriptor.relocationId).Some?
    requires InImage(identity, answers.relocation(descriptor.relocationId).value, 1)
    ensures var v := ValidateSymbol(lists, identity, runtime, provider, descriptor, answers);
            var resolved, code := answers.relocation(descriptor.relocationId).value, descriptor.expectedInstructions;
            && (descriptor.contract == ReadOnlyData ==>
                  if !Covered(answers, resolved, 1) then v == Rejected(RegionUnavailable)
                  else if !answers.region(resolved, 1).value.readable then v == Rejected(RegionNotReadable)
                  else v == Validated(resolved, resolved, false))
            && (descriptor.contract == CompleteFunctionPrologue ==>
                  if code == [] then v == Rejected(InvalidDescriptor)
                  else if !InImage(identity, resolved, |code|) then v == Rejected(AddressOutsideModule)
                  else if !Covered(answers, resolved, |code|) then v == Rejected(RegionUnavailable)
                  else if !answers.region(resolved, |code|).value.readable then v == Rejected(RegionNotReadable)
                  else if !answers.region(resolved, |code|).value.executable then v == Rejected(RegionNotExecutable)
                  else if |code| > 128 then v == Rejected(InvalidDescriptor)
                  else if !answers.readable(resolved, |code|) then v == Rejected(InstructionReadFailed)
                  else if exists i | 0 <= i < |code| :: answers.byteAt(resolved + i) != code[i] then v == Rejected(InstructionBytesMismatch)
                  else v == Validated(resolved, resolved, true))
  {
    var resolved, code := answers.relocation(descriptor.relocationId).value, descriptor.expectedInstructions;
    ProviderCodes(lists, identity, runtime, provider, descriptor);
    RegionMeans(answers, resolved, 1);
    RegionMeans(answers, resolved, |code|);
    ContainsIsInclusion(identity.imageBase, identity.imageSize, resolved, 1);
    ContainsIsInclusion(identity.imageBase, identity.imageSize, resolved, |code|);
    hide ValidateProvider, RegionContains, Contains, ProviderHolds;
    var observed := seq(|code|, i => answers.byteAt(resolved + i));
    assert observed == code <==> forall i | 0 <= i < |code| :: answers.byteAt(resolved + i) == code[i] by {
      if observed == code {
        forall i | 0 <= i < |code| ensures answers.byteAt(resolved + i) == code[i] {
          assert observed[i] == code[i];
        }
      }
    }
    assert ImageFits(identity) by {
      ImageOfProvider(lists, identity, runtime, provider, descriptor);
    }
  }

  lemma ImageOfProvider(
    lists: Allowlists, identity: ExecutableIdentity, runtime: RuntimeEvaluation,
    provider: ProviderContext, descriptor: SymbolDescriptor)
    requires ProviderHolds(lists, identity, runtime, provider, descriptor)
    ensures ImageFits(identity)
  {
  }

  /** Likewise for a virtual table slot and the function it holds, once the descriptor is complete. */
  lemma SlotCodes(
    lists: Allowlists, identity: ExecutableIdentity, runtime: RuntimeEvaluation,
    provider: ProviderContext, descriptor: SymbolDescriptor, answers: Answers)
    requires ProviderHolds(lists, identity, runtime, provider, descriptor)
    requires descriptor.identifier != "" && descriptor.relocationId != 0 && descriptor.contract == DeclaredVtableSlot
    requires answers.relocation(descriptor.relocationId).Some?
    requires InImage(identity, answers.relocation(descriptor.relocationId).value, 1)
    ensures var v := ValidateSymbol(lists, identity, runtime, provider, descriptor, answers);
            var resolved := answers.relocation(descriptor.relocationId).value;
            var slot := resolved + 8 * descriptor.vtableSlot;
            if descriptor.expectedRtti == "" || 8 * descriptor.vtableSlot >= WORD_LIMIT then v == Rejected(InvalidDescriptor)
            else if slot >= WORD_LIMIT || !InImage(identity, slot, 8) then v == Rejected(AddressOutsideModule)
            else if !Covered(answers, slot, 8) then v == Rejected(RegionUnavailable)
            else if !answers.region(slot, 8).value.readable then v == Rejected(RegionNotReadable)
            else if !answers.rtti(resolved, descriptor.expectedRtti) then v == Rejected(RttiIdentityMismatch)
            else if !answers.readable(slot, 8) then v == Rejected(VtableEntryReadFailed)
            else TargetVerdict(identity, slot, FromLittleEndian(seq(8, i => answers.byteAt(slot + i))), answers, v)
  {
    var resolved := answers.relocation(descriptor.relocationId).value;
    var slot := resolved + 8 * descriptor.vtableSlot;
    ProviderCodes(lists, identity, runtime, provider, descriptor);
    ImageOfProvider(lists, identity, runtime, provider, descriptor);
    ContainsIsInclusion(identity.imageBase, identity.imageSize, resolved, 1);
    if slot < WORD_LIMIT {
      RegionMeans(answers, slot, 8);
      ContainsIsInclusion(identity.imageBase, identity.imageSize, slot, 8);
      TargetCodes(identity, slot, seq(8, i => answers.byteAt(slot + i)), answers);
    }
    hide ValidateProvider, RegionContains, Contains, ProviderHolds, ValidateTarget, TargetVerdict;
  }

  /** The verdict on the function a slot points to. */
  predicate TargetVerdict(identity: ExecutableIdentity, slot: Word, target: nat, answers: Answers, v: SymbolValidation) {
    if target >= WORD_LIMIT || !InImage(identity, target, 1) then v == Rejected(AddressOutsideModule)
    else if !Covered(answers, target, 1) then v == Rejected(RegionUnavailable)
    else if !answers.region(target, 1).value.readable then v == Rejected(RegionNotReadable)
    else if !answers.region(target, 1).value.executable then v == Rejected(RegionNotExecutable)
    else v == Validated(target, slot, true)
  }

  lemma TargetCodes(identity: ExecutableIdentity, slot: Word, pointer: seq<byte>, answers: Answers)
    requires ImageFits(identity) && |pointer| == POINTER_SIZE
    ensures TargetVerdict(identity, slot, FromLittleEndian(pointer), answers, ValidateTarget(identity, slot, pointer, answers))
  {
    PowerValues();
    var target := FromLittleEndian(pointer);
    RegionMeans(answers, target, 1);
    ContainsIsInclusion(identity.imageBase, identity.imageSize, target, 1);
    hide Contains, RegionContains;
  }

  /** What is reported before a contract is looked at, and for a contract code the enumeration does not have. */
  lemma SymbolCodes(
    lists: Allowlists, identity: ExecutableIdentity, runtime: RuntimeEvaluation,
    provider: ProviderContext, descriptor: SymbolDescriptor, answers: Answers)
    ensures var v := ValidateSymbol(lists, identity, runtime, provider, descriptor, answers);
            var relocation := answers.relocation(descriptor.relocationId);
            if !ProviderHolds(lists, identity, runtime, provider, descriptor) then
              v == Rejected(ValidateProvider(lists, identity, runtime, provider, descriptor))
            else if descriptor.identifier == "" || descriptor.relocationId == 0
                    || (descriptor.contract == CompleteFunctionPrologue && descriptor.expectedInstructions == [])
                    || (descriptor.contract == DeclaredVtableSlot && descriptor.expectedRtti == "") then v == Rejected(InvalidDescriptor)
            else if relocation == None then v == Rejected(AddressUnresolved)
            else if !InImage(identity, relocation.value, 1) then v == Rejected(AddressOutsideModule)
            else descriptor.contract.OtherContract? ==> v == Rejected(InvalidDescriptor)
  {
    ProviderCodes(lists, identity, runtime, provider, descriptor);
    if ProviderHolds(lists, identity, runtime, provider, descriptor) {
      ImageOfProvider(lists, identity, runtime, provider, descriptor);
      var relocation := answers.relocation(descriptor.relocationId);
      if relocation.Some? {
        ContainsIsInclusion(identity.imageBase, identity.imageSize, relocation.value, 1);
      }
    }
    hide ValidateProvider, ProviderHolds, Contains, ValidateData, ValidatePrologue;
  }

  // ---- Capability report ----

  datatype CapabilityState = Unavailable | ObserveReady | HookReady

  datatype CapabilityEntry = CapabilityEntry(capability: byte, state: CapabilityState, diagnostic: SymbolDiagnostic)

  /** Everything a report is made from besides the descriptors. */
  datatype Observer = Observer(
    lists: Allowlists, identity: ExecutableIdentity, runtime: RuntimeEvaluation, provider: ProviderContext, answers: Answers)
  {
    function Validate(descriptor: SymbolDescriptor): SymbolValidation {
      ValidateSymbol(lists, identity, runtime, provider, descriptor, answers)
    }
  }

  /** The validations of the descriptors that name one capability, in list order. */
  function ValidationsFor(capability: byte, descriptors: seq<SymbolDescriptor>, observer: Observer): seq<SymbolValidation> {
    if descriptors == [] then []
    else
      var last := descriptors[|descriptors| - 1];
      ValidationsFor(capability, descriptors[..|descriptors| - 1], observer)
      + (if last.capability == capability then [observer.Validate(last)] else [])
  }

  /** What one capability's entry must say, given the validations of its descriptors. */
  ghost predicate EntryTells(entry: CapabilityEntry, capability: byte, results: seq<SymbolValidation>) {
    && entry.capability == capability
    && (entry.state != Unavailable <==> results != [] && forall r | r in results :: r.Validated?)
    && (entry.state == HookReady <==>
        (results != [] && forall r | r in results :: r.Validated?) && exists r | r in results :: r.Validated? && r.armable)
    && (entry.state != Unavailable ==> entry.diagnostic == NoDiagnostic)
    && (results == [] ==> entry.diagnostic == MissingDescriptor)
    && (forall i | 0 <= i < |results| && results[i].Rejected? && (forall j | 0 <= j < i :: results[j].Validated?) ::
          entry.diagnostic == results[i].diagnostic)
  }

  /** The running state of the fold for one capability. */
  datatype Slot = Slot(entry: CapabilityEntry, seen: bool, rejected: bool, hookReady: bool)

  function Fold(slot: Slot, v: SymbolValidation): Slot {
    match v
    case Rejected(diagnostic) =>
      Slot(if slot.rejected then slot.entry else slot.entry.(diagnostic := diagnostic), true, true, slot.hookReady)
    case Validated(_, _, armable) => slot.(seen := true, hookReady := slot.hookReady || armable)
  }

  ghost predicate FoldTells(capability: byte, results: seq<SymbolValidation>, slot: Slot) {
    && slot.entry.capability == capability && slot.entry.state == Unavailable
    && (slot.seen <==> results != [])
    && (slot.rejected <==> exists r | r in results :: r.Rejected?)
    && (slot.hookReady <==> exists r | r in results :: r.Validated? && r.armable)
    && (results == [] ==> slot.entry.diagnostic == MissingDescriptor)
    && (forall i | 0 <= i < |results| && results[i].Rejected? && (forall j | 0 <= j < i :: results[j].Validated?) ::
          slot.entry.diagnostic == results[i].diagnostic)
  }

  lemma FoldStep(capability: byte, results: seq<SymbolValidation>, slot: Slot)
    requires results != []
    requires FoldTells(capability, results[..|results| - 1], slot)
    ensures FoldTells(capability, results, Fold(slot, results[|results| - 1]))
  {
    var before, n, v := results[..|results| - 1], |results| - 1, results[|results| - 1];
    assert forall r :: r in results <==> r in before || r == v;
    forall i | 0 <= i <= n && results[i].Rejected? && (forall j | 0 <= j < i :: results[j].Validated?)
      ensures Fold(slot, v).entry.diagnostic == results[i].diagnostic
    {
      if i < n {
        assert before[i] == results[i] && before[i] in before;
        assert forall j | 0 <= j < i :: before[j] == results[j];
      } else {
        forall r | r in before ensures r.Validated? {
          var j :| 0 <= j < n && before[j] == r;
          assert results[j] == r;
        }
      }
    }
  }

  function SlotAfter(capability: byte, results: seq<SymbolValidation>): Slot {
    if results == [] then Slot(CapabilityEntry(capability, Unavailable, MissingDescriptor), false, false, false)
    else Fold(SlotAfter(capability, results[..|results| - 1]), results[|results| - 1])
  }

  lemma {:induction false} SlotTells(capability: byte, results: seq<SymbolValidation>)
    ensures FoldTells(capability, results, SlotAfter(capability, results))
  {
    if results != [] {
      SlotTells(capability, results[..|results| - 1]);
      FoldStep(capability, results, SlotAfter(capability, results[..|results| - 1]));
    }
  }

  /** The entry reported for a capability once every descriptor has been folded in. */
  function Entry(slot: Slot): CapabilityEntry {
    if slot.seen && !slot.rejected then
      slot.entry.(state := if slot.hookReady then HookReady else ObserveReady, diagnostic := NoDiagnostic)
    else slot.entry
  }

  lemma EntryOfSlot(capability: byte, results: seq<SymbolValidation>)
    ensures EntryTells(Entry(SlotAfter(capability, results)), capability, results)
  {
    SlotTells(capability, results);
    if results != [] && !SlotAfter(capability, results).rejected {
      assert results[0] in results;
    }
  }

  method EvaluateObserverCapabilities(observer: Observer, descriptors: seq<SymbolDescriptor>)
    returns (report: seq<CapabilityEntry>)
    ensures |report| == CAPABILITY_COUNT == 6
    ensures forall c: nat | c < CAPABILITY_COUNT :: EntryTells(report[c], c, ValidationsFor(c, descriptors, observer))
  {
    var slots := seq(CAPABILITY_COUNT, c requires 0 <= c < CAPABILITY_COUNT => SlotAfter(c, []));
    for i := 0 to |descriptors|
      invariant |slots| == CAPABILITY_COUNT
      invariant forall c: nat | c < CAPABILITY_COUNT :: slots[c] == SlotAfter(c, ValidationsFor(c, descriptors[..i], observer))
    {
      var descriptor := descriptors[i];
      assert descriptors[..i + 1][..i] == descriptors[..i];
      var index := descriptor.capability;
      if index < CAPABILITY_COUNT {
        ghost var results := ValidationsFor(index, descriptors[..i], observer);
        var validation := observer.Validate(descriptor);
        assert (results + [validation])[..|results|] == results;
        slots := slots[index := Fold(slots[index], validation)];
        assert ValidationsFor(index, descriptors[..i + 1], observer) == results + [validation];
      }
      forall c: nat | c < CAPABILITY_COUNT && c != index
        ensures ValidationsFor(c, descriptors[..i + 1], observer) == ValidationsFor(c, descriptors[..i], observer)
      {
        assert descriptors[..i + 1][i] == descriptor;
      }
    }

    assert descriptors[..|descriptors|] == descriptors;
    report := seq(CAPABILITY_COUNT, c requires 0 <= c < CAPABILITY_COUNT => Entry(slots[c]));
    forall c: nat | c < CAPABILITY_COUNT
      ensures EntryTells(report[c], c, ValidationsFor(c, descriptors, observer))
    {
      EntryOfSlot(c, ValidationsFor(c, descriptors, observer));
    }
  }

  /** The descriptor names the capability. */
  predicate Names(descriptors: seq<SymbolDescriptor>, i: nat, capability: byte) {
    i < |descriptors| && descriptors[i].capability == capability
  }

  lemma {:induction false} ValidationsAre(capability: byte, descriptors: seq<SymbolDescriptor>, observer: Observer)
    ensures forall i: nat | Names(descriptors, i, capability) ::
              observer.Validate(descriptors[i]) in ValidationsFor(capability, descriptors, observer)
    ensures forall r | r in ValidationsFor(capability, descriptors, observer) ::
              exists i: nat :: Names(descriptors, i, capability) && r == observer.Validate(descriptors[i])
  {
    hide ValidateSymbol;
    if descriptors != [] {
      var n := |descriptors| - 1;
      var earlier := descriptors[..n];
      ValidationsAre(capability, earlier, observer);
      forall r | r in ValidationsFor(capability, descriptors, observer)
        ensures exists i: nat :: Names(descriptors, i, capability) && r == observer.Validate(descriptors[i])
      {
        if r in ValidationsFor(capability, earlier, observer) {
          var i: nat :| Names(earlier, i, capability) && r == observer.Validate(earlier[i]);
          assert Names(descriptors, i, capability);
        } else {
          assert Names(descriptors, n, capability);
        }
      }
      forall i: nat | Names(descriptors, i, capability)
        ensures observer.Validate(descriptors[i]) in ValidationsFor(capability, descriptors, observer)
      {
        if i < n {
          assert Names(earlier, i, capability);
        }
      }
    }
  }

  /** The descriptor at `i` is the first one naming the capability to be rejected. */
  ghost predicate FirstRejected(capability: byte, descriptors: seq<SymbolDescriptor>, observer: Observer, i: nat) {
    && Names(descriptors, i, capability) && observer.Validate(descriptors[i]).Rejected?
    && forall j: nat | j < i && Names(descriptors, j, capability) :: observer.Validate(descriptors[j]).Validated?
  }

  lemma {:induction false} FirstRejectedIsFirst(capability: byte, descriptors: seq<SymbolDescriptor>, observer: Observer, i: nat)
    returns (k: nat)
    requires FirstRejected(capability, descriptors, observer, i)
    ensures var results := ValidationsFor(capability, descriptors, observer);
            && k < |results| && results[k] == observer.Validate(descriptors[i])
            && forall j | 0 <= j < k :: results[j].Validated?
  {
    hide ValidateSymbol;
    var n := |descriptors| - 1;
    var earlier := descriptors[..n];
    var before := ValidationsFor(capability, earlier, observer);
    if i < n {
      assert forall j: nat | Names(earlier, j, capability) :: Names(descriptors, j, capability);
      k := FirstRejectedIsFirst(capability, earlier, observer, i);
    } else {
      k := |before|;
      ValidationsAre(capability, earlier, observer);
      forall j | 0 <= j < k
        ensures before[j].Validated?
      {
        assert before[j] in before;
        var d: nat :| Names(earlier, d, capability) && before[j] == observer.Validate(earlier[d]);
        assert Names(descriptors, d, capability);
      }
    }
  }

  /** What makes a descriptor good, apart from how it is validated. */
  ghost predicate Good(observer: Observer, descriptor: SymbolDescriptor) {
    && ProviderHolds(observer.lists, observer.identity, observer.runtime, observer.provider, descriptor)
    && SymbolHolds(observer.identity, descriptor, observer.answers)
  }

  lemma GoodIffValidated(observer: Observer, descriptor: SymbolDescriptor)
    ensures observer.Validate(descriptor).Validated? <==> Good(observer, descriptor)
    ensures observer.Validate(descriptor).Validated? ==>
              (observer.Validate(descriptor).armable <==> descriptor.contract != ReadOnlyData)
  {
    ValidatedIffHolds(observer.lists, observer.identity, observer.runtime, observer.provider, descriptor, observer.answers);
    hide ValidateSymbol, ProviderHolds, SymbolHolds;
  }

  /** What a capability's entry says about the descriptors naming it: it is available exactly when there is one and
      all are good, ready for hooks exactly when, besides, one of them is for code; and otherwise it carries the
      diagnostic of the first that is not good, or says that there is none. */
  lemma ReportMeans(observer: Observer, descriptors: seq<SymbolDescriptor>, capability: byte, entry: CapabilityEntry)
    requires EntryTells(entry, capability, ValidationsFor(capability, descriptors, observer))
    ensures var available := (exists i: nat :: Names(descriptors, i, capability))
                             && forall i: nat | Names(descriptors, i, capability) :: Good(observer, descriptors[i]);
            && (entry.state != Unavailable <==> available)
            && (entry.state == HookReady <==>
                available && exists i: nat :: Names(descriptors, i, capability) && descriptors[i].contract != ReadOnlyData)
            && (entry.state != Unavailable ==> entry.diagnostic == NoDiagnostic)
    ensures (forall i: nat :: !Names(descriptors, i, capability)) ==> entry.diagnostic == MissingDescriptor
    ensures forall i: nat | FirstRejected(capability, descriptors, observer, i) ::
              observer.Validate(descriptors[i]) == Rejected(entry.diagnostic)
  {
    hide ValidateSymbol, Good;
    var results := ValidationsFor(capability, descriptors, observer);
    ValidationsAre(capability, descriptors, observer);
    forall i: nat | Names(descriptors, i, capability)
      ensures observer.Validate(descriptors[i]) in results
      ensures observer.Validate(descriptors[i]).Validated? <==> Good(observer, descriptors[i])
      ensures observer.Validate(descriptors[i]).Validated? ==>
                (observer.Validate(descriptors[i]).armable <==> descriptors[i].contract != ReadOnlyData)
    {
      GoodIffValidated(observer, descriptors[i]);
    }
    if results != [] {
      assert results[0] in results;
    }
    forall i: nat | FirstRejected(capability, descriptors, observer, i)
      ensures observer.Validate(descriptors[i]) == Rejected(entry.diagnostic)
    {
      var k := FirstRejectedIsFirst(capability, descriptors, observer, i);
      assert results[k].Rejected?;
    }
  }
}
