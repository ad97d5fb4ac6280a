/** The Address Library parser and lookup, against the format in AddressFormat and AddressPayload. */
module AddressLibrary {
  import opened Words
  import opened EngineBridge
  import opened AddressFormat
  import opened AddressPayload

  /** Immutable bytes at a place in memory: a span's identity is where it is and how long it is. */
  datatype Span = Span(data: Word, bytes: seq<byte>)

  datatype ArtifactIdentity = ArtifactIdentity(
    kind: ProviderKind, version: RuntimeVersion, variant: RuntimeVariant, sha256: Digest, fileSize: Word)

  /** What admission of an artifact hands out: an identity bound to the bytes whose digest was verified. */
  datatype Receipt = Receipt(identity: ArtifactIdentity, data: Word, size: nat)

  datatype ParseResult = Ready(version: RuntimeVersion, entries: seq<Entry>) | ParseRejected(diagnostic: Diagnostic)

  predicate IsAdmittedArtifact(lists: Allowlists, artifact: ArtifactIdentity) {
    exists i | 0 <= i < |lists.providers| ::
      var record := lists.providers[i];
      && artifact.kind == ProviderKind.AddressLibrary
      && artifact.kind == record.kind
      && artifact.version == record.version
      && artifact.variant == record.variant
      && artifact.sha256 == record.sha256
      && artifact.fileSize == record.fileSize
  }

  predicate IsBoundTo(receipt: Receipt, span: Span) {
    span.data == receipt.data && |span.bytes| == receipt.size
  }

  // ---- Sorted lists of entries ----

  ghost predicate SortedById(entries: seq<Entry>) {
    forall i, j | 0 <= i < j < |entries| :: entries[i].id <= entries[j].id
  }

  ghost predicate StrictById(entries: seq<Entry>) {
    forall i, j | 0 <= i < j < |entries| :: entries[i].id < entries[j].id
  }

  ghost predicate DistinctIds(entries: seq<Entry>) {
    forall i, j | 0 <= i < j < |entries| :: entries[i].id != entries[j].id
  }

  /** Insert an entry before the first one with a larger id. */
  method InsertEntry(sorted: seq<Entry>, e: Entry) returns (longer: seq<Entry>)
    requires SortedById(sorted)
    ensures SortedById(longer)
    ensures multiset(longer) == multiset(sorted) + multiset{e}
  {
    var k := 0;
    while k < |sorted| && sorted[k].id <= e.id
      invariant k <= |sorted|
      invariant forall j | 0 <= j < k :: sorted[j].id <= e.id
    {
      k := k + 1;
    }
    longer := sorted[..k] + [e] + sorted[k..];
    InsertedContents(sorted, k, e);
    InsertedSorted(sorted, k, e, longer);
  }

  lemma InsertedContents(sorted: seq<Entry>, k: nat, e: Entry)
    requires k <= |sorted|
    ensures multiset(sorted[..k] + [e] + sorted[k..]) == multiset(sorted) + multiset{e}
  {
    assert sorted == sorted[..k] + sorted[k..];
  }

  lemma InsertedSorted(sorted: seq<Entry>, k: nat, e: Entry, longer: seq<Entry>)
    requires k <= |sorted| && longer == sorted[..k] + [e] + sorted[k..]
    requires SortedById(sorted)
    requires forall j | 0 <= j < k :: sorted[j].id <= e.id
    requires k < |sorted| ==> e.id < sorted[k].id
    ensures SortedById(longer)
  {
    assert forall j | 0 <= j < |longer| :: longer[j] == if j < k then sorted[j] else if j == k then e else sorted[j - 1];
  }

  /** Some sorted permutation, as `std::ranges::sort` promises; nothing more is relied on. */
  method SortEntries(entries: seq<Entry>) returns (sorted: seq<Entry>)
    ensures SortedById(sorted)
    ensures multiset(sorted) == multiset(entries)
  {
    sorted := [];
    for i := 0 to |entries|
      invariant SortedById(sorted)
      invariant multiset(sorted) == multiset(entries[..i])
    {
      assert entries[..i + 1] == entries[..i] + [entries[i]];
      sorted := InsertEntry(sorted, entries[i]);
    }
    assert entries[..|entries|] == entries;
  }

  /** An element counted twice sits at two indices, and conversely. */
  lemma TwiceIffTwoIndices(entries: seq<Entry>, e: Entry)
    ensures multiset(entries)[e] >= 2 <==> exists i, j :: 0 <= i < j < |entries| && entries[i] == e && entries[j] == e
  {
    if multiset(entries)[e] >= 2 {
      assert e in multiset(entries);
      var i :| 0 <= i < |entries| && entries[i] == e;
      assert entries == entries[..i] + [e] + entries[i + 1..];
      assert e in multiset(entries[..i]) + multiset(entries[i + 1..]);
      if e in entries[..i] {
        var j :| 0 <= j < i && entries[j] == e;
      } else {
        var j :| 0 <= j < |entries| - i - 1 && entries[i + 1..][j] == e;
        assert entries[i + 1 + j] == e;
      }
    }
    if i, j :| 0 <= i < j < |entries| && entries[i] == e && entries[j] == e {
      assert entries == entries[..j] + entries[j..];
      assert entries[..j][i] == e && entries[j..][0] == e;
      assert multiset(entries) == multiset(entries[..j]) + multiset(entries[j..]);
    }
  }

  lemma PermutationKeepsDistinct(a: seq<Entry>, b: seq<Entry>)
    requires multiset(a) == multiset(b) && DistinctIds(a)
    ensures DistinctIds(b)
  {
    forall i, j | 0 <= i < j < |b|
      ensures b[i].id != b[j].id
    {
      assert b[i] in multiset(a) && b[j] in multiset(a);
      var k :| 0 <= k < |a| && a[k] == b[i];
      var l :| 0 <= l < |a| && a[l] == b[j];
      TwiceIffTwoIndices(b, b[i]);
      TwiceIffTwoIndices(a, b[i]);
    }
  }

  /** A permutation has distinct ids exactly when the original has. */
  lemma PermutationDistinct(a: seq<Entry>, b: seq<Entry>)
    requires multiset(a) == multiset(b)
    ensures DistinctIds(a) <==> DistinctIds(b)
  {
    if DistinctIds(a) {
      PermutationKeepsDistinct(a, b);
    }
    if DistinctIds(b) {
      PermutationKeepsDistinct(b, a);
    }
  }

  /** Whether two neighbours share an id, as `std::adjacent_find` asks. */
  method HasAdjacentDuplicate(sorted: seq<Entry>) returns (found: bool)
    requires SortedById(sorted)
    ensures found <==> !DistinctIds(sorted)
    ensures !found ==> StrictById(sorted)
  {
    var i := 1;
    while i < |sorted|
      invariant 1 <= i
      invariant forall j, k | 0 <= j < k < i && k < |sorted| :: sorted[j].id < sorted[k].id
    {
      if sorted[i - 1].id == sorted[i].id {
        return true;
      }
      assert forall j | 0 <= j < i :: sorted[j].id <= sorted[i - 1].id < sorted[i].id;
      i := i + 1;
    }
    found := false;
  }

  // ---- The reader ----

  class ByteReader {
    const bytes: seq<byte>
    var position: nat

    constructor (bytes: seq<byte>)
      ensures Valid() && Rest() == bytes
    {
      this.bytes := bytes;
      position := 0;
    }

    ghost predicate Valid()
      reads this
    {
      position <= |bytes|
    }

    /** The bytes not consumed yet. */
    ghost function Rest(): (rest: seq<byte>)
      requires Valid()
      reads this
    {
      bytes[position..]
    }

    function Remaining(): (count: nat)
      requires Valid()
      reads this
      ensures count == |Rest()|
    {
      |bytes| - position
    }

    method ReadUnsigned(width: nat) returns (value: Option<nat>)
      requires Valid()
      modifies this
      ensures Valid()
      ensures match TakeUnsigned(old(Rest()), width)
              case Good(number, rest) => value == Some(number) && Rest() == rest
              case Bad(_) => value == None && Rest() == old(Rest())
    {
      if Remaining() < width {
        return None;
      }
      var number: nat, weight: nat := 0, 1;
      for index := 0 to width
        invariant position == old(position)
        invariant number == FromLittleEndian(Rest()[..index]) && weight == Pow256(index)
      {
        var b := bytes[position + index];
        FromLittleEndianAppend(Rest()[..index], b);
        assert Rest()[..index + 1] == Rest()[..index] + [b];
        number := number + b * weight;
        weight := 256 * weight;
      }
      position := position + width;
      value := Some(number);
    }

    method ReadSigned32() returns (value: Option<int>)
      requires Valid()
      modifies this
      ensures Valid()
      ensures match TakeSigned32(old(Rest()))
              case Good(number, rest) => value == Some(number) && Rest() == rest
              case Bad(_) => value == None && Rest() == old(Rest())
    {
      var encoded := ReadUnsigned(4);
      if encoded == None {
        return None;
      }
      var number: int := encoded.value;
      if number >= 0x8000_0000 {
        number := number - 0x1_0000_0000;
      }
      value := Some(number);
    }

    method Skip(size: nat) returns (ok: bool)
      requires Valid()
      modifies this
      ensures Valid()
      ensures ok <==> size <= |old(Rest())|
      ensures Rest() == if ok then old(Rest())[size..] else old(Rest())
    {
      if Remaining() < size {
        return false;
      }
      position := position + size;
      ok := true;
    }
  }

  // ---- The parser ----

  /** One value of a record, relative to the previous one. */
  method ReadValue(reader: ByteReader, mode: Mode, previous: Word) returns (result: Decoded<Word>)
    requires reader.Valid()
    modifies reader
    ensures reader.Valid()
    ensures match DecodeValue(old(reader.Rest()), mode, previous)
            case Good(value, rest) => result.Good? && result.value == value && reader.Rest() == rest
            case Bad(d) => result == Bad(d)
  {
    PowerValues();
    if mode == 1 {
      return Checked(AddChecked(previous, 1), []);
    }
    var width := if mode == 0 then 8 else if mode == 2 || mode == 3 then 1 else if mode == 7 then 4 else 2;
    ghost var before := reader.Rest();
    var number := reader.ReadUnsigned(width);
    if number == None {
      return Bad(Truncated);
    }
    if mode == 0 || mode == 6 || mode == 7 {
      FitsWord(before[..width]);
      return Good(number.value, []);
    }
    result := Checked(if mode == 2 || mode == 4 then AddChecked(previous, number.value) else SubtractChecked(previous, number.value), []);
  }

  /** One record. */
  method ReadEntry(reader: ByteReader, previous: Entry, imageSize: Word) returns (result: Decoded<Entry>)
    requires reader.Valid()
    modifies reader
    ensures reader.Valid()
    ensures match DecodeEntry(old(reader.Rest()), previous, imageSize)
            case Good(entry, rest) => result.Good? && result.value == entry && reader.Rest() == rest
            case Bad(d) => result == Bad(d)
  {
    ghost var before := reader.Rest();
    var kind := reader.ReadUnsigned(1);
    if kind == None {
      return Bad(Truncated);
    }
    assert kind.value == before[0] && reader.Rest() == before[1..];
    var idMode := kind.value % 16;
    if idMode > 7 {
      return Bad(InvalidEncoding);
    }
    var id := ReadValue(reader, idMode, previous.id);
    if id.Bad? {
      return Bad(id.diagnostic);
    }
    var offset := ReadOffset(reader, kind.value / 16, previous.offset, imageSize);
    if offset.Bad? {
      return Bad(offset.diagnostic);
    }
    result := Good(Entry(id.value, offset.value), []);
  }

  /** The offset half of a record, under its four-bit encoding. */
  method ReadOffset(reader: ByteReader, encoding: nat, previous: Word, imageSize: Word) returns (result: Decoded<Word>)
    requires reader.Valid() && encoding < 16
    modifies reader
    ensures reader.Valid()
    ensures match DecodeOffset(old(reader.Rest()), encoding % 8, encoding >= 8, previous, imageSize)
            case Good(offset, rest) => result.Good? && result.value == offset && reader.Rest() == rest
            case Bad(d) => result == Bad(d)
  {
    var scaled := encoding >= 8;
    if scaled && previous % POINTER_BYTES != 0 {
      return Bad(InvalidEncoding);
    }
    var value := ReadValue(reader, encoding % 8, if scaled then previous / POINTER_BYTES else previous);
    if value.Bad? {
      return value;
    }
    var offset: nat := value.value;
    if scaled {
      if offset > (WORD_LIMIT - 1) / POINTER_BYTES {
        return Bad(ArithmeticOverflow);
      }
      offset := offset * POINTER_BYTES;
    }
    if offset >= imageSize {
      return Bad(OffsetOutsideModule);
    }
    result := Good(offset, []);
  }

  /** The record loop: `count` records, each relative to the one before it. */
  method ReadEntries(reader: ByteReader, count: nat, imageSize: Word) returns (result: Decoded<seq<Entry>>)
    requires reader.Valid()
    modifies reader
    ensures reader.Valid()
    ensures match DecodeEntries(old(reader.Rest()), count, ORIGIN, imageSize)
            case Good(entries, rest) => result.Good? && result.value == entries && reader.Rest() == rest
            case Bad(d) => result == Bad(d)
  {
    hide DecodeEntry;
    ghost var whole := DecodeEntries(reader.Rest(), count, ORIGIN, imageSize);
    var entries: seq<Entry> := [];
    var previous := ORIGIN;
    assert whole.Good? ==> [] + whole.value == whole.value;
    for index := 0 to count
      invariant reader.Valid()
      invariant whole == Prepended(entries, DecodeEntries(reader.Rest(), count - index, previous, imageSize))
    {
      PrependStep(entries, reader.Rest(), count - index, previous, imageSize);
      var entry := ReadEntry(reader, previous, imageSize);
      if entry.Bad? {
        return Bad(entry.diagnostic);
      }
      entries := entries + [entry.value];
      previous := entry.value;
    }
    assert entries + [] == entries;
    result := Good(entries, []);
  }

  lemma PrependStep(entries: seq<Entry>, bytes: seq<byte>, count: nat, previous: Entry, imageSize: Word)
    requires count > 0
    ensures var whole := Prepended(entries, DecodeEntries(bytes, count, previous, imageSize));
            match DecodeEntry(bytes, previous, imageSize)
            case Bad(d) => whole == Bad(d)
            case Good(entry, rest) => whole == Prepended(entries + [entry], DecodeEntries(rest, count - 1, entry, imageSize))
  {
    var d := DecodeEntry(bytes, previous, imageSize);
    if d.Good? {
      var others := DecodeEntries(d.rest, count - 1, d.value, imageSize);
      if others.Good? {
        assert entries + ([d.value] + others.value) == entries + [d.value] + others.value;
      }
    }
  }

  /** The outcome of a whole stream, from its first entries and the outcome of the rest. */
  ghost function Prepended(entries: seq<Entry>, d: Decoded<seq<Entry>>): Decoded<seq<Entry>> {
    match d
    case Bad(_) => d
    case Good(others, rest) => Good(entries + others, rest)
  }

  method ReadInts(reader: ByteReader, n: nat) returns (values: Option<seq<int>>)
    requires reader.Valid()
    modifies reader
    ensures reader.Valid()
    ensures match TakeInts(old(reader.Rest()), n)
            case Good(ints, rest) => values == Some(ints) && reader.Rest() == rest
            case Bad(d) => values == None && d == Truncated
  {
    ghost var start := reader.Rest();
    if n == 0 {
      return Some([]);
    }
    var first := reader.ReadSigned32();
    if first == None {
      return None;
    }
    var others := ReadInts(reader, n - 1);
    if others == None {
      return None;
    }
    values := Some([first.value] + others.value);
  }

  /** Format, version, name, pointer size and count. */
  method ReadHeader(reader: ByteReader, version: RuntimeVersion) returns (result: Decoded<nat>)
    requires reader.Valid()
    modifies reader
    ensures reader.Valid()
    ensures match DecodeHeader(old(reader.Rest()), version)
            case Good(count, rest) => result.Good? && result.value == count && reader.Rest() == rest
            case Bad(d) => result == Bad(d)
  {
    var format := reader.ReadSigned32();
    if format == None {
      return Bad(Truncated);
    }
    if format.value != 2 {
      return Bad(UnsupportedFormat);
    }
    var fields := ReadInts(reader, 4);
    if fields == None {
      return Bad(Truncated);
    }
    if fields.value != [version.major, version.minor, version.patch, version.build] {
      return Bad(RuntimeMismatch);
    }
    var name := ReadName(reader);
    if name.Bad? {
      return Bad(name.diagnostic);
    }
    result := ReadCount(reader);
  }

  method ReadName(reader: ByteReader) returns (result: Decoded<()>)
    requires reader.Valid()
    modifies reader
    ensures reader.Valid()
    ensures match SkipName(old(reader.Rest()))
            case Good(_, rest) => result.Good? && reader.Rest() == rest
            case Bad(d) => result == Bad(d)
  {
    var length := reader.ReadSigned32();
    if length == None {
      return Bad(Truncated);
    }
    if length.value < 0 || reader.Remaining() < 8 || length.value > reader.Remaining() - 8 {
      return Bad(InvalidNameLength);
    }
    var skipped := reader.Skip(length.value);
    result := if skipped then Good((), []) else Bad(InvalidNameLength);
  }

  method ReadCount(reader: ByteReader) returns (result: Decoded<nat>)
    requires reader.Valid()
    modifies reader
    ensures reader.Valid()
    ensures match TakeCount(old(reader.Rest()))
            case Good(count, rest) => result.Good? && result.value == count && reader.Rest() == rest
            case Bad(d) => result == Bad(d)
  {
    ghost var before := reader.Rest();
    var ints := ReadInts(reader, 2);
    if ints == None {
      return Bad(Truncated);
    }
    IntsCount(before, 2);
    if ints.value[0] != 8 {
      return Bad(InvalidPointerSize);
    }
    if ints.value[1] <= 0 || ints.value[1] > reader.Remaining() {
      return Bad(InvalidEntryCount);
    }
    result := Good(ints.value[1], []);
  }

  lemma {:induction false} IntsCount(bytes: seq<byte>, n: nat)
    requires TakeInts(bytes, n).Good?
    ensures |TakeInts(bytes, n).value| == n
  {
    if n > 0 {
      IntsCount(TakeSigned32(bytes).rest, n - 1);
    }
  }

  /** What a finished parse of payload bytes says. */
  ghost predicate PayloadOutcome(bytes: seq<byte>, version: RuntimeVersion, imageSize: Word, result: ParseResult) {
    match DecodePayload(bytes, version, imageSize)
    case Bad(d) => result == ParseRejected(d)
    case Good(records, _) =>
      if DistinctIds(records)
      then result.Ready? && result.version == version
           && StrictById(result.entries) && multiset(result.entries) == multiset(records)
      else result == ParseRejected(DuplicateId)
  }

  method ParsePayload(bytes: seq<byte>, version: RuntimeVersion, imageSize: Word) returns (result: ParseResult)
    ensures PayloadOutcome(bytes, version, imageSize, result)
  {
    var reader := new ByteReader(bytes);
    var count := ReadHeader(reader, version);
    if count.Bad? {
      return ParseRejected(count.diagnostic);
    }
    var records := ReadEntries(reader, count.value, imageSize);
    if records.Bad? {
      return ParseRejected(records.diagnostic);
    }
    if reader.Remaining() != 0 {
      return ParseRejected(TrailingData);
    }
    var entries := SortEntries(records.value);
    PermutationDistinct(entries, records.value);
    var duplicate := HasAdjacentDuplicate(entries);
    if duplicate {
      return ParseRejected(DuplicateId);
    }
    result := Ready(version, entries);
  }

  /** The gates that come before the payload is looked at. */
  function GateFault(lists: Allowlists, span: Span, receipt: Receipt, imageSize: Word): Option<Diagnostic> {
    if !IsBoundTo(receipt, span) then Some(ArtifactBytesMismatch)
    else if !IsAdmittedArtifact(lists, receipt.identity) then Some(ArtifactUnsupported)
    else if |span.bytes| != receipt.identity.fileSize then Some(ArtifactSizeMismatch)
    else if imageSize == 0 then Some(InvalidModuleSize)
    else None
  }

  /** What a parse says: the fault of the first closed gate, or the outcome of the payload. */
  ghost predicate ParseOutcome(lists: Allowlists, span: Span, receipt: Receipt, imageSize: Word, result: ParseResult) {
    match GateFault(lists, span, receipt, imageSize)
    case Some(d) => result == ParseRejected(d)
    case None => PayloadOutcome(span.bytes, receipt.identity.version, imageSize, result)
  }

  method ParseAddressLibraryV2(lists: Allowlists, span: Span, receipt: Receipt, imageSize: Word) returns (result: ParseResult)
    ensures ParseOutcome(lists, span, receipt, imageSize, result)
  {
    if !IsBoundTo(receipt, span) {
      return ParseRejected(ArtifactBytesMismatch);
    }
    if !IsAdmittedArtifact(lists, receipt.identity) {
      return ParseRejected(ArtifactUnsupported);
    }
    if |span.bytes| != receipt.identity.fileSize {
      return ParseRejected(ArtifactSizeMismatch);
    }
    if imageSize == 0 {
      return ParseRejected(InvalidModuleSize);
    }
    result := ParsePayload(span.bytes, receipt.identity.version, imageSize);
  }

  /** The allowlist has this Address Library artifact, under some name. */
  predicate LibraryListed(lists: Allowlists, artifact: ArtifactIdentity) {
    && artifact.kind == ProviderKind.AddressLibrary
    && exists i | 0 <= i < |lists.providers| ::
         lists.providers[i] == ProviderRecord(
           lists.providers[i].identifier, artifact.kind, artifact.version, artifact.variant, artifact.sha256, artifact.fileSize)
  }

  lemma AdmittedIffListed(lists: Allowlists, artifact: ArtifactIdentity)
    ensures IsAdmittedArtifact(lists, artifact) <==> LibraryListed(lists, artifact)
  {
  }

  /** The diagnostic of a parse turned away before its payload: the first closed gate, in this order. */
  lemma GateCodes(lists: Allowlists, span: Span, receipt: Receipt, imageSize: Word, result: ParseResult)
    requires ParseOutcome(lists, span, receipt, imageSize, result)
    ensures if receipt != Receipt(receipt.identity, span.data, |span.bytes|) then result == ParseRejected(ArtifactBytesMismatch)
            else if !LibraryListed(lists, receipt.identity) then result == ParseRejected(ArtifactUnsupported)
            else if |span.bytes| != receipt.identity.fileSize then result == ParseRejected(ArtifactSizeMismatch)
            else if imageSize == 0 then result == ParseRejected(InvalidModuleSize)
            else PayloadOutcome(span.bytes, receipt.identity.version, imageSize, result)
  {
    AdmittedIffListed(lists, receipt.identity);
    hide PayloadOutcome, IsAdmittedArtifact, LibraryListed;
  }

  // ---- Admission ----

  datatype AdmissionDiagnostic = UnsupportedArtifact | WrongArtifactSize | DigestVerificationFailed

  datatype Admission = Admitted(receipt: Receipt) | NotAdmitted(diagnostic: AdmissionDiagnostic)

  /** How a receipt is come by; `verify` is the injected digest check. */
  function AdmitRelocationArtifact(
    lists: Allowlists, span: Span, identity: ArtifactIdentity, verify: (seq<byte>, Digest) -> bool): Admission
  {
    if !IsAdmittedArtifact(lists, identity) then NotAdmitted(UnsupportedArtifact)
    else if |span.bytes| != identity.fileSize then NotAdmitted(WrongArtifactSize)
    else if !verify(span.bytes, identity.sha256) then NotAdmitted(DigestVerificationFailed)
    else Admitted(Receipt(identity, span.data, |span.bytes|))
  }

  /** A receipt is handed out exactly for a listed library of the listed size whose digest was verified; its own
      bytes then parse by their payload alone, and any other bytes it is presented with are turned away. */
  lemma AdmissionMeans(
    lists: Allowlists, span: Span, identity: ArtifactIdentity, verify: (seq<byte>, Digest) -> bool,
    presented: Span, imageSize: Word, result: ParseResult)
    requires imageSize != 0
    ensures AdmitRelocationArtifact(lists, span, identity, verify).Admitted? <==>
              LibraryListed(lists, identity) && |span.bytes| == identity.fileSize && verify(span.bytes, identity.sha256)
    ensures match AdmitRelocationArtifact(lists, span, identity, verify)
            case Admitted(receipt) =>
              ParseOutcome(lists, presented, receipt, imageSize, result) ==>
                if presented.data == span.data && |presented.bytes| == |span.bytes|
                then PayloadOutcome(presented.bytes, identity.version, imageSize, result)
                else result == ParseRejected(ArtifactBytesMismatch)
            case NotAdmitted(UnsupportedArtifact) => !LibraryListed(lists, identity)
            case NotAdmitted(WrongArtifactSize) => |span.bytes| != identity.fileSize
            case NotAdmitted(DigestVerificationFailed) => !verify(span.bytes, identity.sha256)
  {
    AdmittedIffListed(lists, identity);
    var admission := AdmitRelocationArtifact(lists, span, identity, verify);
    if admission.Admitted? && ParseOutcome(lists, presented, admission.receipt, imageSize, result) {
      GateCodes(lists, presented, admission.receipt, imageSize, result);
    }
    hide PayloadOutcome, ParseOutcome, IsAdmittedArtifact, LibraryListed;
  }

  /** A parse is Ready exactly when the payload is an encoding of some records with distinct ids, and the
      entries are then the one id-sorted arrangement of those records. */
  lemma ReadyIffEncoded(bytes: seq<byte>, version: RuntimeVersion, imageSize: Word, result: ParseResult)
    requires PayloadOutcome(bytes, version, imageSize, result)
    ensures result.Ready? <==>
            exists records, name, choices :: Encodes(bytes, version, imageSize, records, name, choices) && DistinctIds(records)
    ensures forall records, name, choices | Encodes(bytes, version, imageSize, records, name, choices) && DistinctIds(records) ::
              result.Ready? && StrictById(result.entries) && multiset(result.entries) == multiset(records)
  {
    if result.Ready? {
      var records := DecodePayload(bytes, version, imageSize).value;
      DecodesIffEncoded(bytes, version, imageSize, records);
      var name, choices :| Encodes(bytes, version, imageSize, records, name, choices);
    }
    forall records, name, choices | Encodes(bytes, version, imageSize, records, name, choices)
      ensures DecodePayload(bytes, version, imageSize) == Good(records, [])
    {
      DecodesIffEncoded(bytes, version, imageSize, records);
    }
  }

  // ---- Lookup ----

  /** The first entry with an id in stream order, as a reader of the file would find it. */
  function LinearLookup(records: seq<Entry>, id: Word): Option<Word> {
    if records == [] then None
    else if records[0].id == id then Some(records[0].offset)
    else LinearLookup(records[1..], id)
  }

  lemma {:induction false} LinearFinds(records: seq<Entry>, id: Word)
    ensures match LinearLookup(records, id)
            case None => forall i | 0 <= i < |records| :: records[i].id != id
            case Some(offset) => Entry(id, offset) in records
  {
    if records != [] && records[0].id != id {
      LinearFinds(records[1..], id);
      assert records == [records[0]] + records[1..];
    }
  }

  /** Binary search for the first entry whose id is not below `id`, then a check that it is that id. */
  method ResolveOffset(parsed: ParseResult, id: Word) returns (offset: Option<Word>)
    requires parsed.Ready? ==> StrictById(parsed.entries)
    ensures offset == if parsed.Ready? then LinearLookup(parsed.entries, id) else None
  {
    if parsed.ParseRejected? {
      return None;
    }
    var entries := parsed.entries;
    var first, count := 0, |entries|;
    while count > 0
      invariant 0 <= first <= first + count <= |entries|
      invariant forall i | 0 <= i < first :: entries[i].id < id
      invariant forall i | first + count <= i < |entries| :: entries[i].id >= id
    {
      var step := count / 2;
      if entries[first + step].id < id {
        assert forall i | 0 <= i <= first + step :: entries[i].id <= entries[first + step].id;
        first, count := first + step + 1, count - (step + 1);
      } else {
        assert forall i | first + step <= i < |entries| :: entries[i].id >= entries[first + step].id;
        count := step;
      }
    }
    LinearFinds(entries, id);
    if first == |entries| || entries[first].id != id {
      assert forall i | first < i < |entries| :: entries[i].id > entries[first].id;
      return None;
    }
    UniqueOffset(entries, id, entries[first].offset);
    offset := Some(entries[first].offset);
  }

  /** With distinct ids an id has one offset, wherever it stands. */
  lemma UniqueOffset(records: seq<Entry>, id: Word, offset: Word)
    requires DistinctIds(records) && Entry(id, offset) in records
    ensures LinearLookup(records, id) == Some(offset)
  {
    LinearFinds(records, id);
    var i :| 0 <= i < |records| && records[i] == Entry(id, offset);
    if LinearLookup(records, id).Some? {
      var found := Entry(id, LinearLookup(records, id).value);
      var j :| 0 <= j < |records| && records[j] == found;
    }
  }

  /** Lookup in a Ready result answers for every id what a linear search of the decoded stream answers. */
  lemma LookupAgreesWithStream(bytes: seq<byte>, version: RuntimeVersion, imageSize: Word, result: ParseResult, id: Word)
    requires PayloadOutcome(bytes, version, imageSize, result) && result.Ready?
    ensures LinearLookup(result.entries, id) == LinearLookup(DecodePayload(bytes, version, imageSize).value, id)
  {
    LookupInPermutation(result.entries, DecodePayload(bytes, version, imageSize).value, id);
  }

  lemma LookupInPermutation(a: seq<Entry>, b: seq<Entry>, id: Word)
    requires multiset(a) == multiset(b) && DistinctIds(b)
    ensures LinearLookup(a, id) == LinearLookup(b, id)
  {
    LinearFinds(a, id);
    LinearFinds(b, id);
    PermutationDistinct(a, b);
    assert forall e :: e in a <==> e in b by {
      assert forall e :: e in a <==> e in multiset(a);
      assert forall e :: e in b <==> e in multiset(b);
    }
    if e :| e in a && e.id == id {
      UniqueOffset(a, id, e.offset);
      UniqueOffset(b, id, e.offset);
    }
  }

  method ResolveAddress(parsed: ParseResult, id: Word, imageBase: Word, imageSize: Word) returns (address: Option<Word>)
    requires parsed.Ready? ==> StrictById(parsed.entries)
    ensures address.Some? <==>
            && imageBase != 0 && imageSize != 0 && imageBase + imageSize < WORD_LIMIT
            && parsed.Ready?
            && LinearLookup(parsed.entries, id).Some? && LinearLookup(parsed.entries, id).value < imageSize
    ensures address.Some? ==>
            && address.value == imageBase + LinearLookup(parsed.entries, id).value
            && imageBase <= address.value < imageBase + imageSize
  {
    if imageBase == 0 || imageSize == 0 || imageSize > WORD_LIMIT - 1 - imageBase {
      return None;
    }
    var offset := ResolveOffset(parsed, id);
    if offset == None || offset.value >= imageSize || offset.value > WORD_LIMIT - 1 {
      return None;
    }
    if offset.value > WORD_LIMIT - 1 - imageBase {
      return None;
    }
    address := Some(imageBase + offset.value);
  }
}
