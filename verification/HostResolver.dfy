/** Finding the one loaded ENB host. The operating system is a fixed snapshot: a list of modules, a table of
    their exports, and what the exported getters would answer. */
module HostResolver {
  import opened Words

  const EXPORTS: nat := 8
  const SDK_VERSION: int := 1002
  const SDK_FAMILY_BEGIN: int := 1000
  const SDK_FAMILY_END: int := 2000
  const GAME_IDENTIFIER: int := 0x10000006

  datatype Enumeration = Complete | Truncated | EnumerationBroke

  datatype Loaded = Loaded(status: Enumeration, modules: seq<Word>)

  /** `exported(m, k)` is the address of the `k`-th required export of module `m`, or zero; the others are
      what calling the getter at an address returns. */
  datatype Platform = Platform(
    exported: (Word, nat) -> Word, sdkVersion: Word -> int, gameIdentifier: Word -> int, renderInfo: Word -> Word)

  datatype Exports = Exports(
    getSdkVersion: Word, getVersion: Word, getGameIdentifier: Word, setCallbackFunction: Word,
    getParameter: Word, setParameter: Word, getRenderInfo: Word, getState: Word)

  const NO_EXPORTS := Exports(0, 0, 0, 0, 0, 0, 0, 0)

  datatype Candidate = Candidate(base: Word, exports: Exports)

  datatype Validation =
    | Accepted
    | MissingExport(index: nat)
    | WrongSdkFamilyReported
    | SdkVersionOld
    | WrongGameReported
    | RenderInfoNotReady

  datatype Code =
    | Ready | NotReady | HostNotFound | EnumerationFailed | EnumerationTruncated | PartialCandidate
    | AmbiguousCompatibleHosts | WrongSdkFamily | SdkVersionTooOld | WrongGameIdentifier | CandidateRejected

  datatype Resolution = Resolution(code: Code, base: Word, exports: Exports, resolved: bool)

  function Unresolved(code: Code): Resolution {
    Resolution(code, 0, NO_EXPORTS, false)
  }

  // ---- Support ----

  function ResolveExports(p: Platform, m: Word, anchor: Word): Exports {
    Exports(anchor, p.exported(m, 1), p.exported(m, 2), p.exported(m, 3),
            p.exported(m, 4), p.exported(m, 5), p.exported(m, 6), p.exported(m, 7))
  }

  predicate IsComplete(e: Exports) {
    && e.getSdkVersion != 0 && e.getVersion != 0 && e.getGameIdentifier != 0 && e.setCallbackFunction != 0
    && e.getParameter != 0 && e.setParameter != 0 && e.getRenderInfo != 0 && e.getState != 0
  }

  function ValidateSdkHost(p: Platform, e: Exports): Validation {
    if e.getSdkVersion == 0 then MissingExport(0)
    else if e.getVersion == 0 then MissingExport(1)
    else if e.getGameIdentifier == 0 then MissingExport(2)
    else if e.setCallbackFunction == 0 then MissingExport(3)
    else if e.getParameter == 0 then MissingExport(4)
    else if e.setParameter == 0 then MissingExport(5)
    else if e.getRenderInfo == 0 then MissingExport(6)
    else if e.getState == 0 then MissingExport(7)
    else
      var version := p.sdkVersion(e.getSdkVersion);
      if version < SDK_FAMILY_BEGIN || version >= SDK_FAMILY_END then WrongSdkFamilyReported
      else if version < SDK_VERSION then SdkVersionOld
      else if p.gameIdentifier(e.getGameIdentifier) != GAME_IDENTIFIER then WrongGameReported
      else if p.renderInfo(e.getRenderInfo) == 0 then RenderInfoNotReady
      else Accepted
  }

  /** The eight required exports in the order they are looked for. */
  function Listed(e: Exports): seq<Word> {
    [e.getSdkVersion, e.getVersion, e.getGameIdentifier, e.setCallbackFunction,
     e.getParameter, e.setParameter, e.getRenderInfo, e.getState]
  }

  /** Which validation a host gets: the first export that is missing; and, with none missing, what its version, its
      game and its render information say, in that order. */
  lemma ValidationCodes(p: Platform, e: Exports)
    ensures forall k: nat :: ValidateSdkHost(p, e) == MissingExport(k) <==>
              k < EXPORTS && Listed(e)[k] == 0 && forall j | 0 <= j < k :: Listed(e)[j] != 0
    ensures (forall k | 0 <= k < EXPORTS :: Listed(e)[k] != 0) ==>
              var version := p.sdkVersion(e.getSdkVersion);
              ValidateSdkHost(p, e) ==
              if !(1000 <= version < 2000) then WrongSdkFamilyReported
              else if version < 1002 then SdkVersionOld
              else if p.gameIdentifier(e.getGameIdentifier) != 0x1000_0006 then WrongGameReported
              else if p.renderInfo(e.getRenderInfo) == 0 then RenderInfoNotReady
              else Accepted
  {
    var exports := Listed(e);
    assert exports[0] == e.getSdkVersion && exports[1] == e.getVersion && exports[2] == e.getGameIdentifier;
    assert exports[3] == e.setCallbackFunction && exports[4] == e.getParameter && exports[5] == e.setParameter;
    assert exports[6] == e.getRenderInfo && exports[7] == e.getState;
  }

  function MapValidationFailure(v: Validation): Code {
    match v
    case WrongSdkFamilyReported => WrongSdkFamily
    case SdkVersionOld => SdkVersionTooOld
    case WrongGameReported => WrongGameIdentifier
    case _ => CandidateRejected
  }

  // ---- What a module is, independently of the search ----

  predicate Anchored(p: Platform, m: Word) {
    p.exported(m, 0) != 0
  }

  predicate Whole(p: Platform, m: Word) {
    forall k: nat | k < EXPORTS :: p.exported(m, k) != 0
  }

  function ExportsOf(p: Platform, m: Word): Exports {
    ResolveExports(p, m, p.exported(m, 0))
  }

  predicate Compatible(p: Platform, m: Word) {
    var v := ValidateSdkHost(p, ExportsOf(p, m)); v == Accepted || v == RenderInfoNotReady
  }

  /** The listed modules with the anchor export, in order and with repetition. */
  function Anchors(p: Platform, modules: seq<Word>): (anchors: seq<Word>)
    ensures forall k | 0 <= k < |anchors| :: Anchored(p, anchors[k])
  {
    if modules == [] then []
    else
      var last := modules[|modules| - 1];
      Anchors(p, modules[..|modules| - 1]) + if Anchored(p, last) then [last] else []
  }

  /** The first module that has every export but does not validate. */
  function FirstIncompatible(p: Platform, anchors: seq<Word>): Option<Word> {
    if anchors == [] then None
    else if !Compatible(p, anchors[0]) then Some(anchors[0])
    else FirstIncompatible(p, anchors[1..])
  }

  predicate AllWhole(p: Platform, modules: seq<Word>) {
    forall k | 0 <= k < |modules| :: Whole(p, modules[k])
  }

  predicate AllCompatible(p: Platform, modules: seq<Word>) {
    forall k | 0 <= k < |modules| :: Compatible(p, modules[k])
  }

  /** The whole answer for a complete enumeration, by cases on the anchored modules. */
  ghost function Outcome(p: Platform, modules: seq<Word>): Resolution {
    var anchors := Anchors(p, modules);
    if !AllWhole(p, anchors) then Unresolved(PartialCandidate)
    else if anchors == [] then Unresolved(HostNotFound)
    else match FirstIncompatible(p, anchors)
         case Some(m) => Unresolved(MapValidationFailure(ValidateSdkHost(p, ExportsOf(p, m))))
         case None =>
           if |anchors| > 1 then Unresolved(AmbiguousCompatibleHosts)
           else
             var exports := ExportsOf(p, anchors[0]);
             Resolution(if ValidateSdkHost(p, exports) == Accepted then Ready else NotReady, anchors[0], exports, true)
  }

  lemma WholeIsComplete(p: Platform, m: Word)
    ensures IsComplete(ExportsOf(p, m)) <==> Whole(p, m)
  {
    if IsComplete(ExportsOf(p, m)) {
      forall k: nat | k < EXPORTS
        ensures p.exported(m, k) != 0
      {
        assert k == 0 || k == 1 || k == 2 || k == 3 || k == 4 || k == 5 || k == 6 || k == 7;
      }
    }
  }

  lemma {:induction false} FirstIncompatibleIsFirst(p: Platform, anchors: seq<Word>, n: nat)
    requires n <= |anchors| && AllCompatible(p, anchors[..n])
    ensures FirstIncompatible(p, anchors) == FirstIncompatible(p, anchors[n..])
  {
    if n > 0 {
      assert Compatible(p, anchors[..n][0]);
      assert anchors[1..][..n - 1] == anchors[..n][1..];
      assert anchors[1..][n - 1..] == anchors[n..];
      FirstIncompatibleIsFirst(p, anchors[1..], n - 1);
    }
  }

  lemma AnchorStep(p: Platform, modules: seq<Word>, k: nat)
    requires k < |modules|
    ensures Anchored(p, modules[k]) ==> Anchors(p, modules[..k + 1]) == Anchors(p, modules[..k]) + [modules[k]]
    ensures !Anchored(p, modules[k]) ==> Anchors(p, modules[..k + 1]) == Anchors(p, modules[..k])
  {
    assert modules[..k + 1][..k] == modules[..k];
  }

  lemma NoneIsWhole(p: Platform)
    ensures Anchors(p, []) == [] && AllWhole(p, [])
  {
  }

  lemma WholeStep(p: Platform, modules: seq<Word>, m: Word)
    ensures AllWhole(p, modules + [m]) <==> AllWhole(p, modules) && Whole(p, m)
  {
    hide Whole;
    if AllWhole(p, modules + [m]) {
      assert forall i | 0 <= i < |modules| :: (modules + [m])[i] == modules[i];
      assert (modules + [m])[|modules|] == m;
    }
  }

  // ---- The search of the source ----

  predicate Lists(p: Platform, candidates: seq<Candidate>, anchors: seq<Word>) {
    && |candidates| == |anchors|
    && forall k | 0 <= k < |anchors| :: candidates[k] == Candidate(anchors[k], ExportsOf(p, anchors[k]))
  }

  /** The first loop: every anchored module becomes a candidate unless some export is missing. */
  method CollectCandidates(p: Platform, modules: seq<Word>) returns (candidates: seq<Candidate>, partial: bool)
    ensures partial <==> !AllWhole(p, Anchors(p, modules))
    ensures !partial ==> Lists(p, candidates, Anchors(p, modules))
  {
    hide Whole, AllWhole, IsComplete, Anchors;
    NoneIsWhole(p);
    candidates, partial := [], false;
    assert modules[..0] == [];
    for k := 0 to |modules|
      invariant partial <==> !AllWhole(p, Anchors(p, modules[..k]))
      invariant !partial ==> Lists(p, candidates, Anchors(p, modules[..k]))
    {
      AnchorStep(p, modules, k);
      var anchor := p.exported(modules[k], 0);
      if anchor != 0 {
        WholeStep(p, Anchors(p, modules[..k]), modules[k]);
        WholeIsComplete(p, modules[k]);
        var exports := ResolveExports(p, modules[k], anchor);
        if !IsComplete(exports) {
          partial := true;
        } else {
          candidates := candidates + [Candidate(modules[k], exports)];
        }
      }
    }
    assert modules[..|modules|] == modules;
  }

  /** The second loop, over complete candidates. */
  method ChooseCandidate(p: Platform, candidates: seq<Candidate>, ghost anchors: seq<Word>)
    returns (incompatibility: Option<Code>, compatible: Option<Candidate>, ready: bool, count: nat)
    requires Lists(p, candidates, anchors)
    ensures match FirstIncompatible(p, anchors)
            case Some(m) => incompatibility == Some(MapValidationFailure(ValidateSdkHost(p, ExportsOf(p, m))))
            case None =>
              && incompatibility == None && count == |anchors|
              && (anchors != [] ==> compatible == Some(candidates[0])
                                    && (ready <==> ValidateSdkHost(p, candidates[0].exports) == Accepted))
  {
    incompatibility, compatible, ready, count := None, None, false, 0;
    ghost var first := FirstIncompatible(p, anchors);
    for k := 0 to |candidates|
      invariant incompatibility == None ==>
                  && AllCompatible(p, anchors[..k]) && count == k
                  && (k > 0 ==> compatible == Some(candidates[0])
                                && (ready <==> ValidateSdkHost(p, candidates[0].exports) == Accepted))
                  && (k == 0 ==> compatible == None)
      invariant incompatibility.Some? ==>
                  first.Some? && incompatibility == Some(MapValidationFailure(ValidateSdkHost(p, ExportsOf(p, first.value))))
    {
      if incompatibility == None {
        FirstIncompatibleIsFirst(p, anchors, k);
        assert anchors[k..][0] == anchors[k];
        assert anchors[..k + 1] == anchors[..k] + [anchors[k]];
      }
      var validation := ValidateSdkHost(p, candidates[k].exports);
      if validation != Accepted && validation != RenderInfoNotReady {
        if incompatibility == None {
          incompatibility := Some(MapValidationFailure(validation));
        }
      } else {
        count := count + 1;
        if compatible == None {
          compatible, ready := Some(candidates[k]), validation == Accepted;
        }
      }
    }
    if incompatibility == None {
      FirstIncompatibleIsFirst(p, anchors, |anchors|);
    }
  }

  method ResolveLoadedEnbHost(p: Platform, loaded: Loaded) returns (result: Resolution)
    ensures result == match loaded.status
                      case EnumerationBroke => Unresolved(EnumerationFailed)
                      case Truncated => Unresolved(EnumerationTruncated)
                      case Complete => Outcome(p, loaded.modules)
  {
    match loaded.status {
      case EnumerationBroke => return Unresolved(EnumerationFailed);
      case Truncated => return Unresolved(EnumerationTruncated);
      case Complete =>
    }
    var candidates, partial := CollectCandidates(p, loaded.modules);
    if partial {
      return Unresolved(PartialCandidate);
    }
    if candidates == [] {
      return Unresolved(HostNotFound);
    }
    var incompatibility, compatible, ready, count := ChooseCandidate(p, candidates, Anchors(p, loaded.modules));
    if incompatibility.Some? {
      return Unresolved(incompatibility.value);
    }
    if count > 1 {
      return Unresolved(AmbiguousCompatibleHosts);
    }
    if compatible == None {
      return Unresolved(CandidateRejected);
    }
    return Resolution(if ready then Ready else NotReady, compatible.value.base, compatible.value.exports, true);
  }

  // ---- What the answer means ----

  /** Exactly one listing, the one at `k`, has the anchor export; it has all the others too and validates, or
      would but for the render information not being there yet. */
  predicate OnlyHostAt(p: Platform, modules: seq<Word>, k: nat) {
    && k < |modules|
    && (forall j | 0 <= j < |modules| :: Anchored(p, modules[j]) <==> j == k)
    && Whole(p, modules[k]) && Compatible(p, modules[k])
  }

  lemma {:induction false} OneAnchor(p: Platform, modules: seq<Word>, k: nat)
    requires k < |modules| && forall j | 0 <= j < |modules| :: Anchored(p, modules[j]) <==> j == k
    ensures Anchors(p, modules) == [modules[k]]
  {
    var n := |modules| - 1;
    if k < n {
      assert !Anchored(p, modules[n]);
      OneAnchor(p, modules[..n], k);
    } else {
      NoAnchors(p, modules[..n]);
    }
  }

  lemma {:induction false} NoAnchors(p: Platform, modules: seq<Word>)
    requires forall j | 0 <= j < |modules| :: !Anchored(p, modules[j])
    ensures Anchors(p, modules) == []
  {
    if modules != [] {
      NoAnchors(p, modules[..|modules| - 1]);
    }
  }

  lemma {:induction false} OnlyAnchorAt(p: Platform, modules: seq<Word>) returns (k: nat)
    requires |Anchors(p, modules)| == 1
    ensures k < |modules| && modules[k] == Anchors(p, modules)[0]
    ensures forall j | 0 <= j < |modules| :: Anchored(p, modules[j]) <==> j == k
  {
    var n := |modules| - 1;
    if Anchored(p, modules[n]) {
      k := n;
      if exists j :: 0 <= j < n && Anchored(p, modules[j]) {
        var j :| 0 <= j < n && Anchored(p, modules[j]);
        AnchorIsListed(p, modules[..n], j);
      }
    } else {
      k := OnlyAnchorAt(p, modules[..n]);
    }
  }

  lemma {:induction false} AnchorIsListed(p: Platform, modules: seq<Word>, j: nat)
    requires j < |modules| && Anchored(p, modules[j])
    ensures Anchors(p, modules) != []
  {
    var n := |modules| - 1;
    if j < n {
      AnchorIsListed(p, modules[..n], j);
    }
  }

  /** The resolution that names the listing at `k`. */
  ghost predicate Names(p: Platform, result: Resolution, m: Word) {
    && result.resolved && result.base == m && result.exports == ExportsOf(p, m)
    && result.code == if ValidateSdkHost(p, ExportsOf(p, m)) == Accepted then Ready else NotReady
  }

  lemma OneHostResolves(p: Platform, modules: seq<Word>, k: nat)
    requires OnlyHostAt(p, modules, k)
    ensures Names(p, Outcome(p, modules), modules[k])
  {
    OneAnchor(p, modules, k);
    assert FirstIncompatible(p, [modules[k]]) == FirstIncompatible(p, [modules[k]][1..]);
  }

  /** A host is resolved exactly when there is one and only one, and then it is that one. */
  lemma ResolvedIffOneHost(p: Platform, modules: seq<Word>)
    ensures Outcome(p, modules).resolved <==> exists k: nat :: OnlyHostAt(p, modules, k)
    ensures forall k: nat | OnlyHostAt(p, modules, k) :: Names(p, Outcome(p, modules), modules[k])
  {
    forall k: nat | OnlyHostAt(p, modules, k)
      ensures Names(p, Outcome(p, modules), modules[k])
    {
      OneHostResolves(p, modules, k);
    }
    if Outcome(p, modules).resolved {
      var k := OnlyAnchorAt(p, modules);
      IncompatibleIsListed(p, Anchors(p, modules));
      assert OnlyHostAt(p, modules, k);
    }
  }

  predicate IsIncompatibility(code: Code) {
    code == WrongSdkFamily || code == SdkVersionTooOld || code == WrongGameIdentifier
  }

  lemma {:induction false} IncompatibleIsListed(p: Platform, anchors: seq<Word>)
    ensures FirstIncompatible(p, anchors).Some? <==> !AllCompatible(p, anchors)
    ensures FirstIncompatible(p, anchors).Some? ==>
              FirstIncompatible(p, anchors).value in anchors && !Compatible(p, FirstIncompatible(p, anchors).value)
  {
    if anchors != [] {
      IncompatibleIsListed(p, anchors[1..]);
      assert forall k | 0 <= k < |anchors| - 1 :: anchors[1..][k] == anchors[k + 1];
    }
  }

  /** The fallback code is never returned: a candidate that reaches validation has every export, so only the
      three incompatibilities can reject it. */
  lemma NeverCandidateRejected(p: Platform, modules: seq<Word>)
    ensures Outcome(p, modules).code != CandidateRejected
    ensures FirstIncompatible(p, Anchors(p, modules)).Some? && AllWhole(p, Anchors(p, modules)) ==>
              IsIncompatibility(Outcome(p, modules).code)
  {
    var anchors := Anchors(p, modules);
    IncompatibleIsListed(p, anchors);
    if AllWhole(p, anchors) && FirstIncompatible(p, anchors).Some? {
      var m := FirstIncompatible(p, anchors).value;
      assert Whole(p, m);
      WholeIsComplete(p, m);
    }
  }

  /** The module exports all eight functions. */
  predicate ExportsAll(p: Platform, m: Word) {
    forall k: nat | k < 8 :: p.exported(m, k) != 0
  }

  /** What is wrong with a module that exports all eight functions, if anything. */
  function Failing(p: Platform, m: Word): Option<Code> {
    var version := p.sdkVersion(p.exported(m, 0));
    if !(1000 <= version < 2000) then Some(WrongSdkFamily)
    else if version < 1002 then Some(SdkVersionTooOld)
    else if p.gameIdentifier(p.exported(m, 2)) != 0x1000_0006 then Some(WrongGameIdentifier)
    else None
  }

  lemma FailureOfWhole(p: Platform, m: Word)
    requires Whole(p, m)
    ensures Compatible(p, m) <==> Failing(p, m) == None
    ensures !Compatible(p, m) ==> Failing(p, m) == Some(MapValidationFailure(Verdict(p, m)))
    ensures Verdict(p, m) == Accepted <==> Failing(p, m) == None && p.renderInfo(p.exported(m, 6)) != 0
  {
    WholeIsComplete(p, m);
  }

  /** The listing at `k` is the first with the anchor export that fails, and fails with that code. */
  predicate FirstFailing(p: Platform, modules: seq<Word>, k: nat, code: Code) {
    && k < |modules| && p.exported(modules[k], 0) != 0 && Failing(p, modules[k]) == Some(code)
    && forall j | 0 <= j < k && p.exported(modules[j], 0) != 0 :: Failing(p, modules[j]) == None
  }

  /** How many listings have the anchor export. */
  function AnchorCount(p: Platform, modules: seq<Word>): nat {
    if modules == [] then 0
    else AnchorCount(p, modules[..|modules| - 1]) + if p.exported(modules[|modules| - 1], 0) != 0 then 1 else 0
  }

  /** Every listing with the anchor export has the other seven too. */
  predicate NonePartial(p: Platform, modules: seq<Word>) {
    forall k | 0 <= k < |modules| && p.exported(modules[k], 0) != 0 :: ExportsAll(p, modules[k])
  }

  /** No listing with the anchor export fails. */
  predicate NoneFailing(p: Platform, modules: seq<Word>) {
    forall k | 0 <= k < |modules| && p.exported(modules[k], 0) != 0 :: Failing(p, modules[k]) == None
  }

  lemma LongerList(p: Platform, earlier: seq<Word>, m: Word)
    ensures NonePartial(p, earlier + [m]) <==> NonePartial(p, earlier) && (p.exported(m, 0) != 0 ==> ExportsAll(p, m))
    ensures NoneFailing(p, earlier + [m]) <==> NoneFailing(p, earlier) && (p.exported(m, 0) != 0 ==> Failing(p, m) == None)
    ensures forall k: nat, code | FirstFailing(p, earlier, k, code) :: FirstFailing(p, earlier + [m], k, code)
    ensures NoneFailing(p, earlier) && p.exported(m, 0) != 0 && Failing(p, m).Some? ==>
              FirstFailing(p, earlier + [m], |earlier|, Failing(p, m).value)
  {
    hide ExportsAll, Failing;
    var longer := earlier + [m];
    assert longer[|earlier|] == m;
    assert forall k | 0 <= k < |earlier| :: longer[k] == earlier[k];
  }

  lemma {:induction false} AnchorsAreTheListings(p: Platform, modules: seq<Word>)
    ensures |Anchors(p, modules)| == AnchorCount(p, modules)
    ensures AllWhole(p, Anchors(p, modules)) <==> NonePartial(p, modules)
  {
    if modules != [] {
      var n := |modules| - 1;
      AnchorsAreTheListings(p, modules[..n]);
      AnchorStep(p, modules, n);
      WholeStep(p, Anchors(p, modules[..n]), modules[n]);
      WholeIsExportsAll(p, modules[n]);
      assert modules == modules[..n] + [modules[n]] == modules[..n + 1];
      LongerList(p, modules[..n], modules[n]);
    }
    hide Whole, ExportsAll, Failing, NonePartial, NoneFailing, AllWhole;
    NoneIsWhole(p);
    NothingPartial(p);
  }

  lemma NothingPartial(p: Platform)
    ensures NonePartial(p, []) && NoneFailing(p, [])
  {
  }

  lemma WholeIsExportsAll(p: Platform, m: Word)
    ensures Whole(p, m) <==> ExportsAll(p, m)
  {
  }

  lemma {:induction false} FirstIncompatibleIsFirstFailing(p: Platform, modules: seq<Word>)
    requires AllWhole(p, Anchors(p, modules))
    ensures match FirstIncompatible(p, Anchors(p, modules))
            case None => NoneFailing(p, modules)
            case Some(m) => exists k: nat :: FirstFailing(p, modules, k, MapValidationFailure(Verdict(p, m)))
  {
    NothingPartial(p);
    if modules != [] {
      var n := |modules| - 1;
      var earlier := modules[..n];
      assert modules == earlier + [modules[n]] == modules[..n + 1];
      AnchorStep(p, modules, n);
      WholeStep(p, Anchors(p, earlier), modules[n]);
      FirstIncompatibleIsFirstFailing(p, earlier);
      LongerList(p, earlier, modules[n]);
      if Anchored(p, modules[n]) {
        FailureOfWhole(p, modules[n]);
        FirstOfLonger(p, Anchors(p, earlier), modules[n]);
      }
    }
    hide Whole, Compatible, Failing, AllWhole, NoneFailing, FirstFailing;
  }

  lemma {:induction false} FirstOfLonger(p: Platform, anchors: seq<Word>, m: Word)
    ensures FirstIncompatible(p, anchors + [m]) ==
            if FirstIncompatible(p, anchors).Some? then FirstIncompatible(p, anchors)
            else if Compatible(p, m) then None else Some(m)
  {
    hide Compatible;
    if anchors == [] {
      assert (anchors + [m])[1..] == [];
    } else {
      assert (anchors + [m])[1..] == anchors[1..] + [m];
      FirstOfLonger(p, anchors[1..], m);
    }
  }

  /** Exactly when each code is given, in terms of the listed modules and what their exports answer. */
  lemma ResolutionCodes(p: Platform, modules: seq<Word>)
    ensures var code, count := Outcome(p, modules).code, AnchorCount(p, modules);
            if !NonePartial(p, modules) then code == PartialCandidate
            else if count == 0 then code == HostNotFound
            else if !NoneFailing(p, modules) then exists k: nat :: FirstFailing(p, modules, k, code)
            else if count > 1 then code == AmbiguousCompatibleHosts
            else code == if p.renderInfo(Outcome(p, modules).exports.getRenderInfo) != 0 then Ready else NotReady
    ensures Outcome(p, modules).code !in {Ready, NotReady} ==> Outcome(p, modules) == Unresolved(Outcome(p, modules).code)
    ensures Outcome(p, modules).code in {Ready, NotReady} ==>
              && Outcome(p, modules).base in modules
              && forall k: nat | k < 8 :: Listed(Outcome(p, modules).exports)[k] == p.exported(Outcome(p, modules).base, k)
  {
    var anchors := Anchors(p, modules);
    AnchorsAreTheListings(p, modules);
    if AllWhole(p, anchors) {
      FirstIncompatibleIsFirstFailing(p, modules);
      if anchors != [] {
        assert Whole(p, anchors[0]);
        FailureOfWhole(p, anchors[0]);
      }
      IncompatibleIsListed(p, anchors);
    }
    FailingIsFailing(p, modules);
    if anchors != [] {
      AnchorIsModule(p, modules, anchors[0]);
      ExportsAreListed(p, anchors[0]);
    }
    hide Whole, Compatible, Failing, ExportsAll, NoneFailing, NonePartial, FirstFailing, AllWhole;
  }

  lemma ExportsAreListed(p: Platform, m: Word)
    ensures forall k: nat | k < 8 :: Listed(ExportsOf(p, m))[k] == p.exported(m, k)
  {
    forall k: nat | k < 8
      ensures Listed(ExportsOf(p, m))[k] == p.exported(m, k)
    {
      assert k == 0 || k == 1 || k == 2 || k == 3 || k == 4 || k == 5 || k == 6 || k == 7;
    }
  }

  lemma FailingIsFailing(p: Platform, modules: seq<Word>)
    ensures (exists k: nat, code :: FirstFailing(p, modules, k, code)) ==> !NoneFailing(p, modules)
    ensures forall k: nat, code | FirstFailing(p, modules, k, code) :: IsIncompatibility(code)
  {
  }

  // ---- Order ----

  lemma {:induction false} AnchorCounts(p: Platform, modules: seq<Word>, m: Word)
    ensures multiset(Anchors(p, modules))[m] == if Anchored(p, m) then multiset(modules)[m] else 0
  {
    if modules != [] {
      var n := |modules| - 1;
      AnchorCounts(p, modules[..n], m);
      assert modules == modules[..n] + [modules[n]];
    }
  }

  lemma SameAnchors(p: Platform, modules: seq<Word>, shuffled: seq<Word>)
    requires multiset(modules) == multiset(shuffled)
    ensures multiset(Anchors(p, modules)) == multiset(Anchors(p, shuffled))
  {
    forall m: Word
      ensures multiset(Anchors(p, modules))[m] == multiset(Anchors(p, shuffled))[m]
    {
      AnchorCounts(p, modules, m);
      AnchorCounts(p, shuffled, m);
    }
  }

  lemma SameMembers(p: Platform, a: seq<Word>, b: seq<Word>)
    requires multiset(a) == multiset(b)
    ensures |a| == |b| && (AllWhole(p, a) <==> AllWhole(p, b)) && (AllCompatible(p, a) <==> AllCompatible(p, b))
    ensures |a| == 1 ==> a == b
  {
    assert |multiset(a)| == |a| && |multiset(b)| == |b|;
    forall k | 0 <= k < |a|
      ensures a[k] in b
    {
      assert a[k] in multiset(a);
    }
    forall k | 0 <= k < |b|
      ensures b[k] in a
    {
      assert b[k] in multiset(b);
    }
  }

  /** Reordering the snapshot changes nothing, except which of several incompatibilities is reported. */
  lemma OrderDoesNotMatter(p: Platform, modules: seq<Word>, shuffled: seq<Word>)
    requires multiset(modules) == multiset(shuffled)
    ensures Outcome(p, modules) == Outcome(p, shuffled) ||
            (IsIncompatibility(Outcome(p, modules).code) && IsIncompatibility(Outcome(p, shuffled).code))
    ensures Outcome(p, modules).resolved ==> Outcome(p, modules) == Outcome(p, shuffled)
  {
    SameAnchors(p, modules, shuffled);
    SameMembers(p, Anchors(p, modules), Anchors(p, shuffled));
    IncompatibleIsListed(p, Anchors(p, modules));
    IncompatibleIsListed(p, Anchors(p, shuffled));
    NeverCandidateRejected(p, modules);
    NeverCandidateRejected(p, shuffled);
  }

  /** When order cannot show: some anchored module lacks an export, or all that fail validation fail alike. */
  predicate Agree(p: Platform, modules: seq<Word>) {
    var anchors := Anchors(p, modules);
    AllWhole(p, anchors) ==>
      forall i, j | 0 <= i < |anchors| && 0 <= j < |anchors| && !Compatible(p, anchors[i]) && !Compatible(p, anchors[j]) ::
        Verdict(p, anchors[i]) == Verdict(p, anchors[j])
  }

  function Verdict(p: Platform, m: Word): Validation {
    ValidateSdkHost(p, ExportsOf(p, m))
  }

  lemma {:induction false} AnchorsFromFront(p: Platform, m: Word, modules: seq<Word>)
    requires Anchored(p, m)
    ensures Anchors(p, [m] + modules) == [m] + Anchors(p, modules)
  {
    var longer, n := [m] + modules, |modules|;
    if n == 0 {
      assert longer[..0] == [] && longer[0] == m;
    } else {
      assert longer[..n] == [m] + modules[..n - 1] && longer[n] == modules[n - 1];
      AnchorsFromFront(p, m, modules[..n - 1]);
    }
  }

  lemma {:induction false} AnchorIsModule(p: Platform, modules: seq<Word>, m: Word)
    requires m in Anchors(p, modules)
    ensures m in modules
  {
    var n := |modules| - 1;
    if m in Anchors(p, modules[..n]) {
      AnchorIsModule(p, modules[..n], m);
    } else {
      assert m == modules[n];
    }
  }

  /** Any incompatible anchored module is the one reported when it is listed first. */
  lemma MovedToFront(p: Platform, modules: seq<Word>, m: Word) returns (shuffled: seq<Word>)
    requires AllWhole(p, Anchors(p, modules)) && m in Anchors(p, modules) && !Compatible(p, m)
    ensures multiset(shuffled) == multiset(modules)
    ensures Outcome(p, shuffled) == Unresolved(MapValidationFailure(Verdict(p, m)))
  {
    AnchorIsModule(p, modules, m);
    var k :| 0 <= k < |modules| && modules[k] == m;
    var others := modules[..k] + modules[k + 1..];
    shuffled := [m] + others;
    assert modules == modules[..k] + [m] + modules[k + 1..];
    AnchorsFromFront(p, m, others);
    SameAnchors(p, modules, shuffled);
    SameMembers(p, Anchors(p, modules), Anchors(p, shuffled));
  }

  /** A whole module that fails does so in one of three ways, and each has its own code. */
  lemma FailuresKeepTheirCodes(p: Platform, a: Word, b: Word)
    requires Whole(p, a) && Whole(p, b) && !Compatible(p, a) && !Compatible(p, b) && Verdict(p, a) != Verdict(p, b)
    ensures MapValidationFailure(Verdict(p, a)) != MapValidationFailure(Verdict(p, b))
  {
    WholeIsComplete(p, a);
    WholeIsComplete(p, b);
  }

  lemma AgreementSettlesOrder(p: Platform, modules: seq<Word>, shuffled: seq<Word>)
    requires Agree(p, modules) && multiset(shuffled) == multiset(modules)
    ensures Outcome(p, shuffled) == Outcome(p, modules)
  {
    hide Whole, ValidateSdkHost, MapValidationFailure, FirstIncompatible, Anchors;
    SameAnchors(p, modules, shuffled);
    var anchors, others := Anchors(p, modules), Anchors(p, shuffled);
    SameMembers(p, anchors, others);
    IncompatibleIsListed(p, anchors);
    IncompatibleIsListed(p, others);
    if AllWhole(p, anchors) && FirstIncompatible(p, anchors).Some? {
      var m, m' := FirstIncompatible(p, anchors).value, FirstIncompatible(p, others).value;
      assert m' in multiset(others) && m' in anchors;
      var i :| 0 <= i < |anchors| && anchors[i] == m;
      var j :| 0 <= j < |anchors| && anchors[j] == m';
      assert Verdict(p, m) == Verdict(p, m');
    }
  }

  /** Exactly when the order of the module list cannot show in the answer. */
  lemma OrderIsIrrelevantIff(p: Platform, modules: seq<Word>)
    ensures Agree(p, modules) <==>
            forall shuffled: seq<Word> | multiset(shuffled) == multiset(modules) :: Outcome(p, shuffled) == Outcome(p, modules)
  {
    if Agree(p, modules) {
      forall shuffled: seq<Word> | multiset(shuffled) == multiset(modules)
        ensures Outcome(p, shuffled) == Outcome(p, modules)
      {
        AgreementSettlesOrder(p, modules, shuffled);
      }
    } else {
      var anchors := Anchors(p, modules);
      var i, j :| 0 <= i < |anchors| && 0 <= j < |anchors| && !Compatible(p, anchors[i]) && !Compatible(p, anchors[j])
                  && Verdict(p, anchors[i]) != Verdict(p, anchors[j]);
      assert Whole(p, anchors[i]) && Whole(p, anchors[j]);
      FailuresKeepTheirCodes(p, anchors[i], anchors[j]);
      var first := MovedToFront(p, modules, anchors[i]);
      var second := MovedToFront(p, modules, anchors[j]);
      assert Outcome(p, first) != Outcome(p, second);
    }
  }

  /** The smallest list whose order shows: two hosts that fail differently are reported by the first. */
  lemma OrderPicksTheIncompatibility(p: Platform, a: Word, b: Word)
    requires Whole(p, a) && Whole(p, b) && !Compatible(p, a) && !Compatible(p, b)
    ensures Outcome(p, [a, b]).code == MapValidationFailure(Verdict(p, a))
    ensures Outcome(p, [b, a]).code == MapValidationFailure(Verdict(p, b))
    ensures Agree(p, [a, b]) <==> Verdict(p, a) == Verdict(p, b)
    ensures Agree(p, [a, b]) <==> Outcome(p, [a, b]) == Outcome(p, [b, a])
  {
    PairAnchors(p, a, b);
    PairAnchors(p, b, a);
    assert [a, b][0] == a && [a, b][1] == b;
    if Verdict(p, a) != Verdict(p, b) {
      FailuresKeepTheirCodes(p, a, b);
    }
  }

  /** Order can show: of two hosts from outside and before the supported SDK family, the first decides. */
  lemma OrderCanShow()
    ensures var p := Platform((m, _) => m, address => if address == 1 then 0 else 1000, _ => 0, _ => 0);
            Outcome(p, [1, 2]).code == WrongSdkFamily && Outcome(p, [2, 1]).code == SdkVersionTooOld
  {
    var p := Platform((m, _) => m, address => if address == 1 then 0 else 1000, _ => 0, _ => 0);
    OrderPicksTheIncompatibility(p, 1, 2);
  }

  lemma PairAnchors(p: Platform, a: Word, b: Word)
    requires Anchored(p, a) && Anchored(p, b)
    ensures Anchors(p, [a, b]) == [a, b]
  {
    assert [a, b][..1] == [a] && [a][..0] == [];
    assert Anchors(p, [a]) == [a];
  }

  /** A host listed twice is ambiguous with itself. */
  lemma ListedTwiceIsAmbiguous(p: Platform, m: Word)
    requires Whole(p, m) && Compatible(p, m)
    ensures Outcome(p, [m, m]) == Unresolved(AmbiguousCompatibleHosts)
  {
    PairAnchors(p, m, m);
    IncompatibleIsListed(p, [m, m]);
  }
}
