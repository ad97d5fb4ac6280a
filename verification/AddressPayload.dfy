/** A whole Address Library v2 payload: header, records, and exactly when it is accepted. */
module AddressPayload {
  import opened Words
  import opened AddressFormat
  import opened EngineBridge

  const FORMAT: nat := 2
  const INT_LIMIT: nat := 0x8000_0000

  const ORIGIN := Entry(0, 0)

  // ---- Decoding ----

  /** `n` consecutive signed 32-bit integers. */
  function TakeInts(bytes: seq<byte>, n: nat): Decoded<seq<int>> {
    if n == 0 then Good([], bytes)
    else
      match TakeSigned32(bytes)
      case Bad(d) => Bad(d)
      case Good(first, rest) =>
        match TakeInts(rest, n - 1)
        case Bad(d) => Bad(d)
        case Good(others, rest') => Good([first] + others, rest')
  }

  function VersionFields(version: RuntimeVersion): seq<int> {
    [version.major, version.minor, version.patch, version.build]
  }

  /** The length-prefixed name, which must leave room for the two integers that follow it. */
  function SkipName(bytes: seq<byte>): Decoded<()> {
    match TakeSigned32(bytes)
    case Bad(d) => Bad(d)
    case Good(length, rest) =>
      if length < 0 || |rest| < 8 || length > |rest| - 8 then Bad(InvalidNameLength) else Good((), rest[length..])
  }

  /** The pointer size and the record count, which cannot exceed the bytes left. */
  function TakeCount(bytes: seq<byte>): Decoded<nat> {
    match TakeInts(bytes, 2)
    case Bad(d) => Bad(d)
    case Good(ints, rest) =>
      if |ints| != 2 || ints[0] != POINTER_BYTES then Bad(InvalidPointerSize)
      else if ints[1] <= 0 || ints[1] > |rest| then Bad(InvalidEntryCount)
      else Good(ints[1], rest)
  }

  function DecodeVersion(bytes: seq<byte>, version: RuntimeVersion): Decoded<()> {
    match TakeInts(bytes, 4)
    case Bad(d) => Bad(d)
    case Good(fields, rest) => if fields != VersionFields(version) then Bad(RuntimeMismatch) else Good((), rest)
  }

  function DecodeHeader(bytes: seq<byte>, version: RuntimeVersion): Decoded<nat> {
    match TakeSigned32(bytes)
    case Bad(d) => Bad(d)
    case Good(format, r1) =>
      if format != FORMAT then Bad(UnsupportedFormat)
      else
        match DecodeVersion(r1, version)
        case Bad(d) => Bad(d)
        case Good(_, r2) =>
          match SkipName(r2)
          case Bad(d) => Bad(d)
          case Good(_, r3) => TakeCount(r3)
  }

  /** The records of a payload in stream order; nothing may follow them. */
  function DecodePayload(bytes: seq<byte>, version: RuntimeVersion, imageSize: Word): Decoded<seq<Entry>> {
    match DecodeHeader(bytes, version)
    case Bad(d) => Bad(d)
    case Good(count, rest) =>
      match DecodeEntries(rest, count, ORIGIN, imageSize)
      case Bad(d) => Bad(d)
      case Good(entries, rest') => if rest' != [] then Bad(TrailingData) else Good(entries, [])
  }

  // ---- Encoding ----

  function EncodeInts(values: seq<nat>): seq<byte> {
    if values == [] then [] else LittleEndian(values[0], 4) + EncodeInts(values[1..])
  }

  function EncodeHeader(version: RuntimeVersion, name: seq<byte>, count: nat): seq<byte> {
    LittleEndian(FORMAT, 4)
    + (EncodeInts([version.major, version.minor, version.patch, version.build])
       + (LittleEndian(|name|, 4) + (name + EncodeInts([POINTER_BYTES, count]))))
  }

  /** `bytes` is a well-formed payload for `entries` in this order, under some name and some choices. */
  ghost predicate Encodes(bytes: seq<byte>, version: RuntimeVersion, imageSize: Word, entries: seq<Entry>,
                          name: seq<byte>, choices: seq<Choice>)
  {
    && |name| < INT_LIMIT
    && 0 < |entries| < INT_LIMIT
    && EntriesRepresentable(choices, ORIGIN, entries)
    && OffsetsInside(entries, imageSize)
    && bytes == EncodeHeader(version, name, |entries|) + EncodeEntries(choices, ORIGIN, entries)
  }

  // ---- Headers ----

  lemma SignedRoundTrip(value: nat, rest: seq<byte>)
    requires value < INT_LIMIT
    ensures TakeSigned32(LittleEndian(value, 4) + rest) == Good(value, rest)
  {
    PowerValues();
    TakeEncoded(value, 4, rest);
  }

  lemma SignedIsEncoded(bytes: seq<byte>)
    requires TakeSigned32(bytes).Good? && TakeSigned32(bytes).value >= 0
    ensures TakeSigned32(bytes).value < INT_LIMIT
    ensures bytes == LittleEndian(TakeSigned32(bytes).value, 4) + TakeSigned32(bytes).rest
  {
    PowerValues();
    TakenIsEncoded(bytes, 4);
  }

  predicate AllInts(values: seq<nat>) {
    forall i | 0 <= i < |values| :: values[i] < INT_LIMIT
  }

  lemma {:induction false} IntsRoundTrip(values: seq<nat>, rest: seq<byte>)
    requires AllInts(values)
    ensures TakeInts(EncodeInts(values) + rest, |values|) == Good(values, rest)
  {
    if values == [] {
      assert [] + rest == rest;
    } else {
      var first, others := LittleEndian(values[0], 4), EncodeInts(values[1..]);
      assert first + others + rest == first + (others + rest);
      SignedRoundTrip(values[0], others + rest);
      IntsRoundTrip(values[1..], rest);
      assert [values[0]] + values[1..] == values;
    }
  }

  lemma {:induction false} IntsAreEncoded(bytes: seq<byte>, values: seq<nat>)
    requires TakeInts(bytes, |values|).Good? && TakeInts(bytes, |values|).value == values
    ensures AllInts(values)
    ensures bytes == EncodeInts(values) + TakeInts(bytes, |values|).rest
  {
    if values == [] {
      assert [] + bytes == bytes;
    } else {
      var d := TakeSigned32(bytes);
      var others := TakeInts(d.rest, |values| - 1);
      assert values[0] == d.value && values[1..] == others.value;
      SignedIsEncoded(bytes);
      IntsAreEncoded(d.rest, values[1..]);
      SplitEncoding(bytes, LittleEndian(values[0], 4), EncodeInts(values[1..]), d.rest, others.rest);
    }
  }

  lemma NameRoundTrip(name: seq<byte>, rest: seq<byte>)
    requires |name| < INT_LIMIT && |rest| >= 8
    ensures SkipName(LittleEndian(|name|, 4) + (name + rest)) == Good((), rest)
  {
    SignedRoundTrip(|name|, name + rest);
    assert (name + rest)[|name|..] == rest;
  }

  lemma NameIsEncoded(bytes: seq<byte>) returns (name: seq<byte>)
    requires SkipName(bytes).Good?
    ensures |name| < INT_LIMIT
    ensures bytes == LittleEndian(|name|, 4) + (name + SkipName(bytes).rest)
  {
    SignedIsEncoded(bytes);
    var d := TakeSigned32(bytes);
    name := d.rest[..d.value];
    assert d.rest == name + d.rest[d.value..];
  }

  lemma CountRoundTrip(count: nat, rest: seq<byte>)
    requires 0 < count < INT_LIMIT && count <= |rest|
    ensures TakeCount(EncodeInts([POINTER_BYTES, count]) + rest) == Good(count, rest)
  {
    IntsRoundTrip([POINTER_BYTES, count], rest);
  }

  lemma CountIsEncoded(bytes: seq<byte>)
    requires TakeCount(bytes).Good?
    ensures var d := TakeCount(bytes);
            0 < d.value < INT_LIMIT && bytes == EncodeInts([POINTER_BYTES, d.value]) + d.rest && d.value <= |d.rest|
  {
    var d := TakeInts(bytes, 2);
    assert d.value == [POINTER_BYTES, d.value[1]];
    IntsAreEncoded(bytes, [POINTER_BYTES, d.value[1]]);
  }

  lemma {:induction false} IntsLength(values: seq<nat>)
    ensures |EncodeInts(values)| == 4 * |values|
  {
    if values != [] {
      IntsLength(values[1..]);
    }
  }

  lemma HeaderRoundTrip(version: RuntimeVersion, name: seq<byte>, count: nat, rest: seq<byte>)
    requires |name| < INT_LIMIT && 0 < count < INT_LIMIT && count <= |rest|
    ensures DecodeHeader(EncodeHeader(version, name, count) + rest, version) == Good(count, rest)
  {
    var tail := EncodeInts([POINTER_BYTES, count]) + rest;
    var named := LittleEndian(|name|, 4) + (name + tail);
    var fields := [version.major, version.minor, version.patch, version.build];
    var versioned := EncodeInts(fields) + named;
    Regroup(LittleEndian(FORMAT, 4), EncodeInts(fields), LittleEndian(|name|, 4), name, EncodeInts([POINTER_BYTES, count]), rest);
    SignedRoundTrip(FORMAT, versioned);
    IntsRoundTrip(fields, named);
    IntsLength([POINTER_BYTES, count]);
    NameRoundTrip(name, tail);
    CountRoundTrip(count, rest);
  }

  lemma HeaderIsEncoded(bytes: seq<byte>, version: RuntimeVersion) returns (name: seq<byte>)
    requires DecodeHeader(bytes, version).Good?
    ensures var d := DecodeHeader(bytes, version);
            && |name| < INT_LIMIT && 0 < d.value < INT_LIMIT && d.value <= |d.rest|
            && bytes == EncodeHeader(version, name, d.value) + d.rest
  {
    var format := TakeSigned32(bytes);
    SignedIsEncoded(bytes);
    var fields := [version.major, version.minor, version.patch, version.build];
    IntsAreEncoded(format.rest, fields);
    var versioned := DecodeVersion(format.rest, version);
    name := NameIsEncoded(versioned.rest);
    var named := SkipName(versioned.rest);
    CountIsEncoded(named.rest);
    var d := TakeCount(named.rest);
    Regroup(LittleEndian(FORMAT, 4), EncodeInts(fields), LittleEndian(|name|, 4), name, EncodeInts([POINTER_BYTES, d.value]), d.rest);
  }

  lemma Regroup(a: seq<byte>, b: seq<byte>, c: seq<byte>, d: seq<byte>, e: seq<byte>, rest: seq<byte>)
    ensures a + (b + (c + (d + (e + rest)))) == (a + (b + (c + (d + e)))) + rest
  {
  }

  /** The header by byte position, and why it is refused: the first of these, in this order. */
  lemma HeaderCodes(bytes: seq<byte>, version: RuntimeVersion)
    ensures var decoded := DecodeHeader(bytes, version);
            if |bytes| < 4 then decoded == Bad(Truncated)
            else if bytes[..4] != [2, 0, 0, 0] then decoded == Bad(UnsupportedFormat)
            else if |bytes| < 20 then decoded == Bad(Truncated)
            else if [FieldAt(bytes, 4), FieldAt(bytes, 8), FieldAt(bytes, 12), FieldAt(bytes, 16)] !=
                    [version.major, version.minor, version.patch, version.build] then decoded == Bad(RuntimeMismatch)
            else if |bytes| < 24 then decoded == Bad(Truncated)
            else
              var length := FieldAt(bytes, 20);
              if length < 0 || 24 + length + 8 > |bytes| then decoded == Bad(InvalidNameLength)
              else
                var next: nat := 24 + length;
                var count := FieldAt(bytes, next + 4);
                if bytes[next..next + 4] != [8, 0, 0, 0] then decoded == Bad(InvalidPointerSize)
                else if count <= 0 || count > |bytes| - next - 8 then decoded == Bad(InvalidEntryCount)
                else decoded == Good(count, bytes[next + 8..])
  {
    FormatCodes(bytes, version);
    if |bytes| >= 4 && bytes[..4] == [2, 0, 0, 0] {
      VersionCodes(bytes, version);
      if |bytes| >= 20 {
        NameCodes(bytes);
        if |bytes| >= 24 && FieldAt(bytes, 20) >= 0 && 24 + FieldAt(bytes, 20) + 8 <= |bytes| {
          CountCodes(bytes, 24 + FieldAt(bytes, 20));
        }
      }
    }
    hide DecodeHeader, DecodeVersion, SkipName, TakeCount, FieldAt;
  }

  /** The signed 32-bit integer at a position. */
  function FieldAt(bytes: seq<byte>, k: nat): int
    requires k + 4 <= |bytes|
  {
    LittleWord(bytes[k], bytes[k + 1], bytes[k + 2], bytes[k + 3]) - if bytes[k + 3] < 128 then 0 else 0x1_0000_0000
  }

  lemma FieldCodes(bytes: seq<byte>, k: nat)
    requires k <= |bytes|
    ensures TakeSigned32(bytes[k..]) == if k + 4 > |bytes| then Bad(Truncated) else Good(FieldAt(bytes, k), bytes[k + 4..])
  {
    if k + 4 <= |bytes| {
      var four := bytes[k..k + 4];
      assert bytes[k..][..4] == four && bytes[k..][4..] == bytes[k + 4..];
      FourBytes(four);
    }
  }

  /** A small non-negative field is its low byte and three zeros. */
  lemma SmallField(bytes: seq<byte>, k: nat, n: nat)
    requires k + 4 <= |bytes| && n < 256
    ensures FieldAt(bytes, k) == n <==> bytes[k..k + 4] == [n, 0, 0, 0]
  {
    if bytes[k..k + 4] == [n, 0, 0, 0] {
      assert bytes[k] == bytes[k..k + 4][0] && bytes[k + 1] == bytes[k..k + 4][1];
      assert bytes[k + 2] == bytes[k..k + 4][2] && bytes[k + 3] == bytes[k..k + 4][3];
    }
  }

  lemma FormatCodes(bytes: seq<byte>, version: RuntimeVersion)
    ensures |bytes| < 4 ==> DecodeHeader(bytes, version) == Bad(Truncated)
    ensures |bytes| >= 4 && bytes[..4] != [2, 0, 0, 0] ==> DecodeHeader(bytes, version) == Bad(UnsupportedFormat)
    ensures |bytes| >= 4 && bytes[..4] == [2, 0, 0, 0] ==>
              DecodeHeader(bytes, version) ==
              match DecodeVersion(bytes[4..], version)
              case Bad(d) => Bad(d)
              case Good(_, r2) => (match SkipName(r2) case Bad(d) => Bad(d) case Good(_, r3) => TakeCount(r3))
  {
    assert bytes[0..] == bytes;
    FieldCodes(bytes, 0);
    if |bytes| >= 4 {
      SmallField(bytes, 0, 2);
    }
  }

  lemma VersionCodes(bytes: seq<byte>, version: RuntimeVersion)
    requires |bytes| >= 4
    ensures |bytes| < 20 ==> DecodeVersion(bytes[4..], version) == Bad(Truncated)
    ensures |bytes| >= 20 ==>
              DecodeVersion(bytes[4..], version) ==
              if [FieldAt(bytes, 4), FieldAt(bytes, 8), FieldAt(bytes, 12), FieldAt(bytes, 16)] !=
                 [version.major, version.minor, version.patch, version.build] then Bad(RuntimeMismatch)
              else Good((), bytes[20..])
  {
    IntsCodes(bytes, 4, 4);
    hide TakeInts;
    if |bytes| >= 20 {
      assert FieldsAt(bytes, 16, 1) == [FieldAt(bytes, 16)];
      assert FieldsAt(bytes, 12, 2) == [FieldAt(bytes, 12), FieldAt(bytes, 16)];
      assert FieldsAt(bytes, 8, 3) == [FieldAt(bytes, 8), FieldAt(bytes, 12), FieldAt(bytes, 16)];
    }
  }

  function FieldsAt(bytes: seq<byte>, k: nat, n: nat): (fields: seq<int>)
    requires k + 4 * n <= |bytes|
    ensures |fields| == n
    decreases n
  {
    if n == 0 then [] else [FieldAt(bytes, k)] + FieldsAt(bytes, k + 4, n - 1)
  }

  lemma {:induction false} IntsCodes(bytes: seq<byte>, k: nat, n: nat)
    requires k <= |bytes|
    ensures TakeInts(bytes[k..], n) ==
            if k + 4 * n > |bytes| then Bad(Truncated) else Good(FieldsAt(bytes, k, n), bytes[k + 4 * n..])
    decreases n
  {
    if n > 0 {
      FieldCodes(bytes, k);
      if k + 4 <= |bytes| {
        IntsCodes(bytes, k + 4, n - 1);
      }
    }
    hide FieldAt, TakeSigned32;
  }

  lemma NameCodes(bytes: seq<byte>)
    requires |bytes| >= 20
    ensures |bytes| < 24 ==> SkipName(bytes[20..]) == Bad(Truncated)
    ensures |bytes| >= 24 ==>
              SkipName(bytes[20..]) ==
              var length := FieldAt(bytes, 20);
              if length < 0 || 24 + length + 8 > |bytes| then Bad(InvalidNameLength) else Good((), bytes[24 + length..])
  {
    FieldCodes(bytes, 20);
    hide FieldAt, TakeSigned32;
    if |bytes| >= 24 && FieldAt(bytes, 20) >= 0 && 24 + FieldAt(bytes, 20) <= |bytes| {
      assert bytes[24..][FieldAt(bytes, 20)..] == bytes[24 + FieldAt(bytes, 20)..];
    }
  }

  lemma CountCodes(bytes: seq<byte>, k: nat)
    requires k + 8 <= |bytes|
    ensures var count := FieldAt(bytes, k + 4);
            TakeCount(bytes[k..]) ==
            if bytes[k..k + 4] != [8, 0, 0, 0] then Bad(InvalidPointerSize)
            else if count <= 0 || count > |bytes| - k - 8 then Bad(InvalidEntryCount)
            else Good(count, bytes[k + 8..])
  {
    IntsCodes(bytes, k, 2);
    SmallField(bytes, k, 8);
    assert FieldsAt(bytes, k + 4, 1) == [FieldAt(bytes, k + 4)];
    hide FieldAt, TakeInts;
  }

  // ---- Payloads ----

  /** A payload decodes to a list exactly when it is some encoding of that list: with a name, a count of
      at most 2^31 - 1, an admissible representation chosen per record, every offset inside the image,
      and nothing before, between or after. */
  lemma DecodesIffEncoded(bytes: seq<byte>, version: RuntimeVersion, imageSize: Word, entries: seq<Entry>)
    ensures DecodePayload(bytes, version, imageSize) == Good(entries, []) <==>
            exists name, choices :: Encodes(bytes, version, imageSize, entries, name, choices)
  {
    if DecodePayload(bytes, version, imageSize) == Good(entries, []) {
      var name := HeaderIsEncoded(bytes, version);
      var header := DecodeHeader(bytes, version);
      var choices := DecodedEntriesAreEncoded(header.rest, header.value, ORIGIN, imageSize);
      assert header.rest == EncodeEntries(choices, ORIGIN, entries) + [] == EncodeEntries(choices, ORIGIN, entries);
      assert Encodes(bytes, version, imageSize, entries, name, choices);
    }
    forall name, choices | Encodes(bytes, version, imageSize, entries, name, choices)
      ensures DecodePayload(bytes, version, imageSize) == Good(entries, [])
    {
      PayloadRoundTrip(version, imageSize, entries, name, choices, []);
      var encoded := EncodeEntries(choices, ORIGIN, entries);
      assert encoded + [] == encoded;
    }
  }

  /** Header and records of an encoding come back, whatever bytes follow. */
  lemma PayloadRoundTrip(version: RuntimeVersion, imageSize: Word, entries: seq<Entry>, name: seq<byte>, choices: seq<Choice>, more: seq<byte>)
    requires |name| < INT_LIMIT && 0 < |entries| < INT_LIMIT
    requires EntriesRepresentable(choices, ORIGIN, entries) && OffsetsInside(entries, imageSize)
    ensures var bytes := EncodeHeader(version, name, |entries|) + (EncodeEntries(choices, ORIGIN, entries) + more);
            DecodePayload(bytes, version, imageSize) == if more == [] then Good(entries, []) else Bad(TrailingData)
  {
    HeaderRoundTrip(version, name, |entries|, EncodeEntries(choices, ORIGIN, entries) + more);
    EntriesRoundTrip(choices, ORIGIN, entries, more, imageSize);
  }

  /** Two records that each step id and offset up by one: the stream starts from id 0 and offset 0, and goes on from
      record to record. */
  lemma StepsFromZero(version: RuntimeVersion, name: seq<byte>, imageSize: Word)
    requires |name| < INT_LIMIT && imageSize > 2
    ensures DecodePayload(EncodeHeader(version, name, 2) + [0x11, 0x11], version, imageSize) == Good([Entry(1, 1), Entry(2, 2)], [])
  {
    var step, records := Choice(1, 1, false), [Entry(1, 1), Entry(2, 2)];
    assert records[1..] == [Entry(2, 2)] && [step, step][1..] == [step];
    assert EntriesRepresentable([step], Entry(1, 1), [Entry(2, 2)]);
    assert EncodeEntry(step, ORIGIN, Entry(1, 1)) == [0x11] && EncodeEntry(step, Entry(1, 1), Entry(2, 2)) == [0x11];
    assert EncodeEntries([step], Entry(1, 1), [Entry(2, 2)]) == [0x11];
    assert EncodeEntries([step, step], ORIGIN, records) == [0x11, 0x11];
    PayloadRoundTrip(version, imageSize, records, name, [step, step], []);
    assert [0x11, 0x11] + [] == [0x11, 0x11];
    hide DecodePayload, EncodeHeader;
  }

  /** The payload decoder is prefix-free: no proper extension of an accepted payload is accepted. */
  lemma PrefixFree(bytes: seq<byte>, more: seq<byte>, version: RuntimeVersion, imageSize: Word)
    requires DecodePayload(bytes, version, imageSize).Good? && more != []
    ensures DecodePayload(bytes + more, version, imageSize) == Bad(TrailingData)
  {
    var entries := DecodePayload(bytes, version, imageSize).value;
    DecodesIffEncoded(bytes, version, imageSize, entries);
    var name, choices :| Encodes(bytes, version, imageSize, entries, name, choices);
    ExtendedEncoding(bytes, more, version, imageSize, entries, name, choices);
  }

  lemma ExtendedEncoding(bytes: seq<byte>, more: seq<byte>, version: RuntimeVersion, imageSize: Word,
                         entries: seq<Entry>, name: seq<byte>, choices: seq<Choice>)
    requires Encodes(bytes, version, imageSize, entries, name, choices) && more != []
    ensures DecodePayload(bytes + more, version, imageSize) == Bad(TrailingData)
  {
    hide EncodeHeader, EncodeEntries, DecodePayload, EntriesRepresentable, OffsetsInside;
    PayloadRoundTrip(version, imageSize, entries, name, choices, more);
    var header, records := EncodeHeader(version, name, |entries|), EncodeEntries(choices, ORIGIN, entries);
    assert (header + records) + more == header + (records + more);
  }

  /** Rejecting a count above the bytes left loses nothing: such a record stream never decodes. */
  lemma EarlyCountCheckIsExact(bytes: seq<byte>, count: nat, previous: Entry, imageSize: Word)
    requires count > |bytes|
    ensures DecodeEntries(bytes, count, previous, imageSize).Bad?
  {
    if DecodeEntries(bytes, count, previous, imageSize).Good? {
      var _ := DecodedEntriesAreEncoded(bytes, count, previous, imageSize);
    }
  }
}
