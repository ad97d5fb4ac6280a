/** Deciding which known wrapper build a file is, or which it is closest to. */
module WrapperFingerprint {
  import opened Words
  import opened FileVersion

  datatype Architecture = UnknownArchitecture | X86 | X64 | Arm64

  datatype Fingerprint = Fingerprint(
    sha256: seq<byte>, fileSize: Word, fileVersion: Version, originalFilename: string, architecture: Architecture)

  datatype Field = Sha256 | FileSize | FileVersionField | OriginalFilename | ArchitectureField

  datatype Policy = Strict | AuditOnly

  datatype Build = KnownBuild | UnknownBuild | EvidenceUnavailable

  datatype Admission = AdmittedKnownBuild | AdmittedAuditOnly | RejectedUnknownBuild | RejectedEvidenceUnavailable

  datatype Compatibility = Compatibility(build: Build, admission: Admission, mismatches: set<Field>, index: Option<nat>)

  /** The fields in which two fingerprints differ; the source keeps one flag bit for each. */
  function CompareBuild(actual: Fingerprint, expected: Fingerprint): (mismatches: set<Field>)
    ensures forall f :: f in mismatches <==> Differs(actual, expected, f)
    ensures mismatches == {} <==> actual == expected
    ensures |mismatches| <= 5
  {
    var all := {Sha256, FileSize, FileVersionField, OriginalFilename, ArchitectureField};
    var mismatches := set f | f in all && Differs(actual, expected, f);
    Bounded(mismatches, all);
    assert actual != expected ==> exists f :: Differs(actual, expected, f) && f in all;
    mismatches
  }

  predicate Differs(actual: Fingerprint, expected: Fingerprint, f: Field) {
    match f
    case Sha256 => actual.sha256 != expected.sha256
    case FileSize => actual.fileSize != expected.fileSize
    case FileVersionField => actual.fileVersion != expected.fileVersion
    case OriginalFilename => actual.originalFilename != expected.originalFilename
    case ArchitectureField => actual.architecture != expected.architecture
  }

  lemma {:induction false} Bounded<T>(part: set<T>, whole: set<T>)
    requires part <= whole
    ensures |part| <= |whole|
  {
    if part != {} {
      var x :| x in part;
      Bounded(part - {x}, whole - {x});
    }
  }

  function UnknownAdmission(policy: Policy): Admission {
    if policy == AuditOnly then AdmittedAuditOnly else RejectedUnknownBuild
  }

  function EvidenceAdmission(policy: Policy): Admission {
    if policy == AuditOnly then AdmittedAuditOnly else RejectedEvidenceUnavailable
  }

  function Distance(actual: Fingerprint, expected: Fingerprint): nat {
    |CompareBuild(actual, expected)|
  }

  /** Record `k` is the first among those that differ least. */
  predicate Closest(actual: Fingerprint, allowlist: seq<Fingerprint>, k: nat) {
    && k < |allowlist|
    && (forall j | 0 <= j < |allowlist| :: Distance(actual, allowlist[k]) <= Distance(actual, allowlist[j]))
    && forall j | 0 <= j < k :: Distance(actual, allowlist[k]) < Distance(actual, allowlist[j])
  }

  /** The classification of complete evidence, without a word about policy. */
  predicate Classified(actual: Fingerprint, allowlist: seq<Fingerprint>, build: Build, mismatches: set<Field>, index: Option<nat>) {
    if allowlist == [] then build == UnknownBuild && mismatches == {} && index == None
    else
      && index.Some? && Closest(actual, allowlist, index.value)
      && mismatches == CompareBuild(actual, allowlist[index.value])
      && build == if mismatches == {} then KnownBuild else UnknownBuild
  }

  /** `evidence` is the fingerprint read from the file, or nothing if any part of it was unavailable. */
  method ClassifyWrapperBuild(evidence: Option<Fingerprint>, policy: Policy, allowlist: seq<Fingerprint>)
    returns (result: Compatibility)
    ensures evidence == None ==>
              result == Compatibility(EvidenceUnavailable, EvidenceAdmission(policy), {}, None)
    ensures evidence.Some? ==> Classified(evidence.value, allowlist, result.build, result.mismatches, result.index)
    ensures evidence.Some? ==>
              result.admission == if result.build == KnownBuild then AdmittedKnownBuild else UnknownAdmission(policy)
    ensures evidence.Some? ==> (result.build == KnownBuild <==> evidence.value in allowlist)
    ensures result.admission == AdmittedKnownBuild <==> evidence.Some? && evidence.value in allowlist
    ensures result.admission == AdmittedAuditOnly <==> policy == AuditOnly && result.build != KnownBuild
    ensures result.admission == RejectedUnknownBuild <==> policy == Strict && evidence.Some? && evidence.value !in allowlist
    ensures result.admission == RejectedEvidenceUnavailable <==> policy == Strict && evidence == None
  {
    if evidence == None {
      return Compatibility(EvidenceUnavailable, EvidenceAdmission(policy), {}, None);
    }
    var closest: set<Field> := {};
    var closestIndex: Option<nat> := None;
    var closestCount := 0x7fff_ffff;
    for index := 0 to |allowlist|
      invariant index == 0 ==> closest == {} && closestIndex == None && closestCount == 0x7fff_ffff
      invariant index > 0 ==>
                  && closestIndex.Some? && Closest(evidence.value, allowlist[..index], closestIndex.value)
                  && closest == CompareBuild(evidence.value, allowlist[closestIndex.value]) && closest != {}
                  && closestCount == |closest|
    {
      var mismatches := CompareBuild(evidence.value, allowlist[index]);
      if mismatches == {} {
        FirstExactIsClosest(evidence.value, allowlist, index, closestIndex);
        return Compatibility(KnownBuild, AdmittedKnownBuild, {}, Some(index));
      }
      if |mismatches| < closestCount {
        closest, closestIndex, closestCount := mismatches, Some(index), |mismatches|;
      }
    }
    assert allowlist[..|allowlist|] == allowlist;
    if allowlist != [] {
      DistantMeansUnlisted(evidence.value, allowlist, closestIndex.value);
    }
    return Compatibility(UnknownBuild, UnknownAdmission(policy), closest, closestIndex);
  }

  lemma DistantMeansUnlisted(actual: Fingerprint, allowlist: seq<Fingerprint>, k: nat)
    requires Closest(actual, allowlist, k) && CompareBuild(actual, allowlist[k]) != {}
    ensures actual !in allowlist
  {
    forall j | 0 <= j < |allowlist|
      ensures allowlist[j] != actual
    {
      assert Distance(actual, allowlist[j]) >= Distance(actual, allowlist[k]) > 0;
    }
  }

  lemma FirstExactIsClosest(actual: Fingerprint, allowlist: seq<Fingerprint>, k: nat, before: Option<nat>)
    requires k < |allowlist| && CompareBuild(actual, allowlist[k]) == {}
    requires k > 0 ==> before.Some? && Closest(actual, allowlist[..k], before.value)
                       && CompareBuild(actual, allowlist[before.value]) != {}
    ensures Closest(actual, allowlist, k)
  {
    forall j | 0 <= j < k
      ensures Distance(actual, allowlist[j]) > 0
    {
      assert Distance(actual, allowlist[..k][before.value]) <= Distance(actual, allowlist[..k][j]);
    }
  }

  /** Evidence and allowlist alone decide the build, the mismatches and the index: two calls that differ only
      in policy agree on them. */
  lemma PolicyDecidesNothingElse(
    actual: Fingerprint, allowlist: seq<Fingerprint>,
    build: Build, mismatches: set<Field>, index: Option<nat>, build': Build, mismatches': set<Field>, index': Option<nat>)
    requires Classified(actual, allowlist, build, mismatches, index)
    requires Classified(actual, allowlist, build', mismatches', index')
    ensures build == build' && mismatches == mismatches' && index == index'
  {
    if allowlist != [] {
      ClosestIsUnique(actual, allowlist, index.value, index'.value);
    }
  }

  lemma ClosestIsUnique(actual: Fingerprint, allowlist: seq<Fingerprint>, k: nat, j: nat)
    requires Closest(actual, allowlist, k) && Closest(actual, allowlist, j)
    ensures k == j
  {
    assert Distance(actual, allowlist[k]) == Distance(actual, allowlist[j]);
  }

  /** No mismatch flags mean a known build only when the allowlist is not empty: with an empty one the
      build is unknown and yet nothing mismatches. */
  lemma CleanMeansKnownIffListed(actual: Fingerprint, allowlist: seq<Fingerprint>, build: Build, mismatches: set<Field>, index: Option<nat>)
    requires Classified(actual, allowlist, build, mismatches, index)
    ensures (mismatches == {} <==> build == KnownBuild) <==> allowlist != []
  {
  }
}
