/** The Address Library v2 byte format: an encoder, the decoder, and that they are inverse. */
module AddressFormat {
  import opened Words

  datatype Entry = Entry(id: Word, offset: Word)

  datatype Diagnostic =
    | NoDiagnostic | ArtifactUnsupported | ArtifactSizeMismatch | UnsupportedFormat | RuntimeMismatch
    | InvalidNameLength | InvalidPointerSize | InvalidEntryCount | Truncated | InvalidEncoding
    | ArithmeticOverflow | OffsetOutsideModule | TrailingData | DuplicateId | InvalidModuleSize
    | ArtifactBytesMismatch

  /** A piece decoded from the front of a byte string, or why it could not be. */
  datatype Decoded<+T> = Good(value: T, rest: seq<byte>) | Bad(diagnostic: Diagnostic)

  type Mode = m: int | 0 <= m < 8

  /** The writer's free choice for one record: how to represent its id and its offset. */
  datatype Choice = Choice(idMode: Mode, offsetMode: Mode, scaled: bool)

  const POINTER_BYTES: nat := 8

  // ---- Decoding ----

  function TakeUnsigned(bytes: seq<byte>, width: nat): Decoded<nat> {
    if |bytes| < width then Bad(Truncated) else Good(FromLittleEndian(bytes[..width]), bytes[width..])
  }

  /** A two's complement 32-bit integer. */
  function TakeSigned32(bytes: seq<byte>): Decoded<int> {
    match TakeUnsigned(bytes, 4)
    case Bad(d) => Bad(d)
    case Good(value, rest) => Good(if value < 0x8000_0000 then value else value - 0x1_0000_0000, rest)
  }

  function AddChecked(base: Word, delta: nat): Option<Word> {
    if delta > WORD_LIMIT - 1 - base then None else Some(base + delta)
  }

  function SubtractChecked(base: Word, delta: nat): Option<Word> {
    if delta > base then None else Some(base - delta)
  }

  function Checked(sum: Option<Word>, rest: seq<byte>): Decoded<Word> {
    if sum == None then Bad(ArithmeticOverflow) else Good(sum.value, rest)
  }

  function DecodeAbsolute(bytes: seq<byte>, width: nat): Decoded<Word>
    requires width <= 8
  {
    match TakeUnsigned(bytes, width)
    case Bad(d) => Bad(d)
    case Good(value, rest) => FitsWord(bytes[..width]); Good(value, rest)
  }

  function DecodeDelta(bytes: seq<byte>, width: nat, previous: Word, up: bool): Decoded<Word> {
    match TakeUnsigned(bytes, width)
    case Bad(d) => Bad(d)
    case Good(delta, rest) => Checked(if up then AddChecked(previous, delta) else SubtractChecked(previous, delta), rest)
  }

  function DecodeValue(bytes: seq<byte>, mode: Mode, previous: Word): Decoded<Word> {
    match mode
    case 0 => DecodeAbsolute(bytes, 8)
    case 1 => Checked(AddChecked(previous, 1), bytes)
    case 2 => DecodeDelta(bytes, 1, previous, true)
    case 3 => DecodeDelta(bytes, 1, previous, false)
    case 4 => DecodeDelta(bytes, 2, previous, true)
    case 5 => DecodeDelta(bytes, 2, previous, false)
    case 6 => DecodeAbsolute(bytes, 2)
    case 7 => DecodeAbsolute(bytes, 4)
  }

  /** The offset half of a record; scaled offsets count pointers from a pointer-aligned predecessor. */
  function DecodeOffset(bytes: seq<byte>, mode: Mode, scaled: bool, previous: Word, imageSize: Word): Decoded<Word> {
    if scaled && previous % POINTER_BYTES != 0 then Bad(InvalidEncoding)
    else
      match DecodeValue(bytes, mode, if scaled then previous / POINTER_BYTES else previous)
      case Bad(d) => Bad(d)
      case Good(value, rest) =>
        if scaled && value > (WORD_LIMIT - 1) / POINTER_BYTES then Bad(ArithmeticOverflow)
        else
          var offset: Word := if scaled then value * POINTER_BYTES else value;
          if offset >= imageSize then Bad(OffsetOutsideModule) else Good(offset, rest)
  }

  function DecodeEntry(bytes: seq<byte>, previous: Entry, imageSize: Word): Decoded<Entry> {
    if bytes == [] then Bad(Truncated)
    else
      var kind := bytes[0];
      if kind % 16 > 7 then Bad(InvalidEncoding)
      else
        match DecodeValue(bytes[1..], kind % 16, previous.id)
        case Bad(d) => Bad(d)
        case Good(id, rest) =>
          match DecodeOffset(rest, kind / 16 % 8, kind / 16 >= 8, previous.offset, imageSize)
          case Bad(d) => Bad(d)
          case Good(offset, rest') => Good(Entry(id, offset), rest')
  }

  function DecodeEntries(bytes: seq<byte>, count: nat, previous: Entry, imageSize: Word): Decoded<seq<Entry>>
    decreases count
  {
    if count == 0 then Good([], bytes)
    else
      match DecodeEntry(bytes, previous, imageSize)
      case Bad(d) => Bad(d)
      case Good(entry, rest) =>
        match DecodeEntries(rest, count - 1, entry, imageSize)
        case Bad(d) => Bad(d)
        case Good(entries, rest') => Good([entry] + entries, rest')
  }

  // ---- Encoding ----

  predicate Representable(mode: Mode, previous: Word, value: Word) {
    match mode
    case 0 => true
    case 1 => value == previous + 1
    case 2 => previous <= value < previous + 0x100
    case 3 => value <= previous < value + 0x100
    case 4 => previous <= value < previous + 0x1_0000
    case 5 => value <= previous < value + 0x1_0000
    case 6 => value < 0x1_0000
    case 7 => value < 0x1_0000_0000
  }

  function EncodeValue(mode: Mode, previous: Word, value: Word): seq<byte>
    requires Representable(mode, previous, value)
  {
    match mode
    case 0 => LittleEndian(value, 8)
    case 1 => []
    case 2 => LittleEndian(value - previous, 1)
    case 3 => LittleEndian(previous - value, 1)
    case 4 => LittleEndian(value - previous, 2)
    case 5 => LittleEndian(previous - value, 2)
    case 6 => LittleEndian(value, 2)
    case 7 => LittleEndian(value, 4)
  }

  function Scale(scaled: bool, offset: Word): Word {
    if scaled then offset / POINTER_BYTES else offset
  }

  predicate EntryRepresentable(choice: Choice, previous: Entry, entry: Entry) {
    && Representable(choice.idMode, previous.id, entry.id)
    && (choice.scaled ==> previous.offset % POINTER_BYTES == 0 && entry.offset % POINTER_BYTES == 0)
    && Representable(choice.offsetMode, Scale(choice.scaled, previous.offset), Scale(choice.scaled, entry.offset))
  }

  function KindByte(choice: Choice): byte {
    choice.idMode + 16 * (choice.offsetMode + if choice.scaled then 8 else 0)
  }

  function EncodeEntry(choice: Choice, previous: Entry, entry: Entry): (bytes: seq<byte>)
    requires EntryRepresentable(choice, previous, entry)
    ensures |bytes| >= 1
  {
    [KindByte(choice)] + EncodeValue(choice.idMode, previous.id, entry.id)
    + EncodeValue(choice.offsetMode, Scale(choice.scaled, previous.offset), Scale(choice.scaled, entry.offset))
  }

  predicate EntriesRepresentable(choices: seq<Choice>, previous: Entry, entries: seq<Entry>) {
    && |choices| == |entries|
    && (entries != [] ==>
          EntryRepresentable(choices[0], previous, entries[0]) && EntriesRepresentable(choices[1..], entries[0], entries[1..]))
  }

  function EncodeEntries(choices: seq<Choice>, previous: Entry, entries: seq<Entry>): (bytes: seq<byte>)
    requires EntriesRepresentable(choices, previous, entries)
    ensures |bytes| >= |entries|
  {
    if entries == [] then []
    else EncodeEntry(choices[0], previous, entries[0]) + EncodeEntries(choices[1..], entries[0], entries[1..])
  }

  predicate OffsetsInside(entries: seq<Entry>, imageSize: Word) {
    forall i | 0 <= i < |entries| :: entries[i].offset < imageSize
  }

  // ---- One value ----

  lemma {:induction false} PowerGrows(n: nat, m: nat)
    requires n <= m
    ensures Pow256(n) <= Pow256(m)
    decreases m - n
  {
    if n < m {
      PowerGrows(n + 1, m);
    }
  }

  lemma FitsWord(bytes: seq<byte>)
    requires |bytes| <= 8
    ensures FromLittleEndian(bytes) < WORD_LIMIT
  {
    PowerValues();
    PowerGrows(|bytes|, 8);
  }

  lemma TakeEncoded(value: nat, width: nat, rest: seq<byte>)
    requires value < Pow256(width)
    ensures TakeUnsigned(LittleEndian(value, width) + rest, width) == Good(value, rest)
  {
    DecodeEncoded(value, width);
    assert (LittleEndian(value, width) + rest)[..width] == LittleEndian(value, width);
    assert (LittleEndian(value, width) + rest)[width..] == rest;
  }

  lemma ValueRoundTrip(mode: Mode, previous: Word, value: Word, rest: seq<byte>)
    requires Representable(mode, previous, value)
    ensures DecodeValue(EncodeValue(mode, previous, value) + rest, mode, previous) == Good(value, rest)
  {
    PowerValues();
    match mode
    case 0 => TakeEncoded(value, 8, rest);
    case 1 => assert [] + rest == rest;
    case 2 => TakeEncoded(value - previous, 1, rest);
    case 3 => TakeEncoded(previous - value, 1, rest);
    case 4 => TakeEncoded(value - previous, 2, rest);
    case 5 => TakeEncoded(previous - value, 2, rest);
    case 6 => TakeEncoded(value, 2, rest);
    case 7 => TakeEncoded(value, 4, rest);
  }

  lemma TakenIsEncoded(bytes: seq<byte>, width: nat)
    requires |bytes| >= width
    ensures FromLittleEndian(bytes[..width]) < Pow256(width)
    ensures LittleEndian(FromLittleEndian(bytes[..width]), width) + bytes[width..] == bytes
  {
    EncodeDecoded(bytes[..width], width);
    assert bytes[..width] + bytes[width..] == bytes;
  }

  /** Whatever decodes was the encoding of what it decodes to. */
  lemma DecodedValueIsEncoded(bytes: seq<byte>, mode: Mode, previous: Word)
    requires DecodeValue(bytes, mode, previous).Good?
    ensures var d := DecodeValue(bytes, mode, previous);
            Representable(mode, previous, d.value) && bytes == EncodeValue(mode, previous, d.value) + d.rest
  {
    PowerValues();
    match mode
    case 0 => TakenIsEncoded(bytes, 8);
    case 1 => assert bytes == [] + bytes;
    case 2 => TakenIsEncoded(bytes, 1);
    case 3 => TakenIsEncoded(bytes, 1);
    case 4 => TakenIsEncoded(bytes, 2);
    case 5 => TakenIsEncoded(bytes, 2);
    case 6 => TakenIsEncoded(bytes, 2);
    case 7 => TakenIsEncoded(bytes, 4);
  }

  // ---- One record ----

  lemma OffsetRoundTrip(choice: Choice, previous: Entry, entry: Entry, rest: seq<byte>, imageSize: Word)
    requires EntryRepresentable(choice, previous, entry) && entry.offset < imageSize
    ensures DecodeOffset(EncodeValue(choice.offsetMode, Scale(choice.scaled, previous.offset), Scale(choice.scaled, entry.offset)) + rest,
                         choice.offsetMode, choice.scaled, previous.offset, imageSize) == Good(entry.offset, rest)
  {
    ValueRoundTrip(choice.offsetMode, Scale(choice.scaled, previous.offset), Scale(choice.scaled, entry.offset), rest);
  }

  lemma EntryRoundTrip(choice: Choice, previous: Entry, entry: Entry, rest: seq<byte>, imageSize: Word)
    requires EntryRepresentable(choice, previous, entry) && entry.offset < imageSize
    ensures DecodeEntry(EncodeEntry(choice, previous, entry) + rest, previous, imageSize) == Good(entry, rest)
  {
    hide DecodeValue, EncodeValue, DecodeOffset, Representable;
    var bytes := EncodeEntry(choice, previous, entry) + rest;
    var idBytes := EncodeValue(choice.idMode, previous.id, entry.id);
    var offsetBytes := EncodeValue(choice.offsetMode, Scale(choice.scaled, previous.offset), Scale(choice.scaled, entry.offset));
    assert bytes[1..] == idBytes + (offsetBytes + rest);
    assert bytes[0] % 16 == choice.idMode && bytes[0] / 16 % 8 == choice.offsetMode && (bytes[0] / 16 >= 8 <==> choice.scaled);
    ValueRoundTrip(choice.idMode, previous.id, entry.id, offsetBytes + rest);
    OffsetRoundTrip(choice, previous, entry, rest, imageSize);
  }

  /** The choice a kind byte spells out. */
  function ChoiceOf(kind: byte): Choice
    requires kind % 16 < 8
  {
    Choice(kind % 16, kind / 16 % 8, kind / 16 >= 8)
  }

  lemma DecodedOffsetIsEncoded(bytes: seq<byte>, mode: Mode, scaled: bool, previous: Word, imageSize: Word)
    requires DecodeOffset(bytes, mode, scaled, previous, imageSize).Good?
    ensures var d := DecodeOffset(bytes, mode, scaled, previous, imageSize);
            && d.value < imageSize
            && (scaled ==> previous % POINTER_BYTES == 0 && d.value % POINTER_BYTES == 0)
            && Representable(mode, Scale(scaled, previous), Scale(scaled, d.value))
            && bytes == EncodeValue(mode, Scale(scaled, previous), Scale(scaled, d.value)) + d.rest
  {
    DecodedValueIsEncoded(bytes, mode, Scale(scaled, previous));
    var value := DecodeValue(bytes, mode, Scale(scaled, previous)).value;
    assert Scale(scaled, DecodeOffset(bytes, mode, scaled, previous, imageSize).value) == value;
  }

  lemma KindOfChoice(kind: byte)
    requires kind % 16 < 8
    ensures KindByte(ChoiceOf(kind)) == kind
  {
  }

  lemma DecodedEntryIsEncoded(bytes: seq<byte>, previous: Entry, imageSize: Word)
    requires DecodeEntry(bytes, previous, imageSize).Good?
    ensures bytes != [] && bytes[0] % 16 < 8
    ensures var d, choice := DecodeEntry(bytes, previous, imageSize), ChoiceOf(bytes[0]);
            && EntryRepresentable(choice, previous, d.value)
            && d.value.offset < imageSize
            && bytes == EncodeEntry(choice, previous, d.value) + d.rest
  {
    var choice := ChoiceOf(bytes[0]);
    KindOfChoice(bytes[0]);
    var id := DecodeValue(bytes[1..], choice.idMode, previous.id);
    DecodedValueIsEncoded(bytes[1..], choice.idMode, previous.id);
    DecodedOffsetIsEncoded(id.rest, choice.offsetMode, choice.scaled, previous.offset, imageSize);
    var offset := DecodeOffset(id.rest, choice.offsetMode, choice.scaled, previous.offset, imageSize);
    Reassemble(bytes, EncodeValue(choice.idMode, previous.id, id.value),
               EncodeValue(choice.offsetMode, Scale(choice.scaled, previous.offset), Scale(choice.scaled, offset.value)),
               id.rest, offset.rest);
  }

  lemma Reassemble(bytes: seq<byte>, a: seq<byte>, b: seq<byte>, rest: seq<byte>, rest': seq<byte>)
    requires bytes != [] && bytes[1..] == a + rest && rest == b + rest'
    ensures bytes == [bytes[0]] + a + b + rest'
  {
    assert bytes == [bytes[0]] + bytes[1..];
  }

  /** How many bytes each mode takes, and what it makes of them. */
  lemma ValueCodes(bytes: seq<byte>, mode: Mode, previous: Word)
    ensures var width := [8, 0, 1, 1, 2, 2, 2, 4][mode];
            if |bytes| < width then DecodeValue(bytes, mode, previous) == Bad(Truncated)
            else
              var read := FromLittleEndian(bytes[..width]);
              var value := if mode in {0, 6, 7} then read
                           else if mode == 1 then previous + 1
                           else if mode in {2, 4} then previous + read
                           else previous - read;
              if 0 <= value < WORD_LIMIT then DecodeValue(bytes, mode, previous) == Good(value, bytes[width..])
              else mode !in {0, 6, 7} && DecodeValue(bytes, mode, previous) == Bad(ArithmeticOverflow)
  {
    if mode == 0 || mode == 6 || mode == 7 {
      var width := if mode == 0 then 8 else if mode == 6 then 2 else 4;
      if |bytes| >= width {
        FitsWord(bytes[..width]);
      }
    }
    if mode == 1 {
      assert bytes[0..] == bytes;
    }
  }

  /** Why a record is refused: the first of these, in this order. */
  lemma EntryCodes(bytes: seq<byte>, previous: Entry, imageSize: Word)
    ensures var decoded := DecodeEntry(bytes, previous, imageSize);
            if bytes == [] then decoded == Bad(Truncated)
            else
              var idMode, offsetMode, scaled := bytes[0] % 16, bytes[0] / 16 % 8, bytes[0] >= 128;
              if idMode >= 8 then decoded == Bad(InvalidEncoding)
              else
                match DecodeValue(bytes[1..], idMode, previous.id)
                case Bad(d) => decoded == Bad(d)
                case Good(id, rest) =>
                  if scaled && previous.offset % 8 != 0 then decoded == Bad(InvalidEncoding)
                  else
                    match DecodeValue(rest, offsetMode, if scaled then previous.offset / 8 else previous.offset)
                    case Bad(d) => decoded == Bad(d)
                    case Good(value, rest') =>
                      var offset := if scaled then value * 8 else value;
                      if offset >= WORD_LIMIT then decoded == Bad(ArithmeticOverflow)
                      else if offset >= imageSize then decoded == Bad(OffsetOutsideModule)
                      else decoded == Good(Entry(id, offset), rest')
  {
    hide DecodeValue;
  }

  /** The kind byte: the mode of the id in its low half, the mode of the offset above, and the scale on top. */
  lemma KindByteLayout(choice: Choice, previous: Entry, entry: Entry)
    requires EntryRepresentable(choice, previous, entry)
    ensures EncodeEntry(choice, previous, entry)[0] == choice.idMode + 16 * choice.offsetMode + if choice.scaled then 128 else 0
  {
  }

  // ---- A record stream ----

  /** Decoding the encoding of any list, under any admissible choices, gives back that list. */
  lemma {:induction false} EntriesRoundTrip(choices: seq<Choice>, previous: Entry, entries: seq<Entry>, rest: seq<byte>, imageSize: Word)
    requires EntriesRepresentable(choices, previous, entries) && OffsetsInside(entries, imageSize)
    ensures DecodeEntries(EncodeEntries(choices, previous, entries) + rest, |entries|, previous, imageSize) == Good(entries, rest)
  {
    if entries == [] {
      assert [] + rest == rest;
    } else {
      var first, others := EncodeEntry(choices[0], previous, entries[0]), EncodeEntries(choices[1..], entries[0], entries[1..]);
      assert first + others + rest == first + (others + rest);
      EntryRoundTrip(choices[0], previous, entries[0], others + rest, imageSize);
      EntriesRoundTrip(choices[1..], entries[0], entries[1..], rest, imageSize);
      assert [entries[0]] + entries[1..] == entries;
    }
  }

  /** Every record is decoded from its own place in the stream, relative to the record before it. */
  lemma {:induction false} RecordsChain(bytes: seq<byte>, count: nat, previous: Entry, imageSize: Word, k: nat) returns (at: nat)
    requires k < count && DecodeEntries(bytes, count, previous, imageSize).Good?
    ensures |DecodeEntries(bytes, count, previous, imageSize).value| == count && at <= |bytes|
    ensures var records := DecodeEntries(bytes, count, previous, imageSize).value;
            var decoded := DecodeEntry(bytes[at..], if k == 0 then previous else records[k - 1], imageSize);
            decoded.Good? && decoded.value == records[k]
    decreases count
  {
    hide DecodeEntry;
    RecordCount(bytes, count, previous, imageSize);
    var first := DecodeEntry(bytes, previous, imageSize);
    if k == 0 {
      at := 0;
      assert bytes[0..] == bytes;
    } else {
      RestIsSuffix(bytes, previous, imageSize);
      var later := RecordsChain(first.rest, count - 1, first.value, imageSize, k - 1);
      at := |bytes| - |first.rest| + later;
      assert bytes[|bytes| - |first.rest|..][later..] == bytes[at..];
    }
  }

  lemma {:induction false} RecordCount(bytes: seq<byte>, count: nat, previous: Entry, imageSize: Word)
    requires DecodeEntries(bytes, count, previous, imageSize).Good?
    ensures |DecodeEntries(bytes, count, previous, imageSize).value| == count
    decreases count
  {
    hide DecodeEntry;
    if count > 0 {
      var first := DecodeEntry(bytes, previous, imageSize);
      RecordCount(first.rest, count - 1, first.value, imageSize);
    }
  }

  lemma RestIsSuffix(bytes: seq<byte>, previous: Entry, imageSize: Word)
    requires DecodeEntry(bytes, previous, imageSize).Good?
    ensures var rest := DecodeEntry(bytes, previous, imageSize).rest;
            |rest| <= |bytes| && bytes[|bytes| - |rest|..] == rest
  {
    DecodedEntryIsEncoded(bytes, previous, imageSize);
    hide DecodeEntry, EncodeEntry;
  }

  lemma DecodeEntriesStep(bytes: seq<byte>, count: nat, previous: Entry, imageSize: Word)
    requires count > 0 && DecodeEntries(bytes, count, previous, imageSize).Good?
    ensures DecodeEntry(bytes, previous, imageSize).Good?
    ensures var d := DecodeEntry(bytes, previous, imageSize);
            var others := DecodeEntries(d.rest, count - 1, d.value, imageSize);
            others.Good? && DecodeEntries(bytes, count, previous, imageSize) == Good([d.value] + others.value, others.rest)
  {
    hide DecodeEntry;
  }

  /** `bytes` is the encoding, under `choices`, of the decoded entries, followed by what was left over. */
  ghost predicate EncodedBy(bytes: seq<byte>, d: Decoded<seq<Entry>>, previous: Entry, imageSize: Word, choices: seq<Choice>)
    requires d.Good?
  {
    && EntriesRepresentable(choices, previous, d.value)
    && OffsetsInside(d.value, imageSize)
    && bytes == EncodeEntries(choices, previous, d.value) + d.rest
  }

  lemma NothingEncoded(bytes: seq<byte>, previous: Entry, imageSize: Word)
    ensures EncodedBy(bytes, DecodeEntries(bytes, 0, previous, imageSize), previous, imageSize, [])
  {
    assert [] + bytes == bytes;
  }

  lemma OneMoreEncoded(bytes: seq<byte>, count: nat, previous: Entry, imageSize: Word, tail: seq<Choice>)
    requires count > 0 && DecodeEntries(bytes, count, previous, imageSize).Good? && DecodeEntry(bytes, previous, imageSize).Good?
    requires var d := DecodeEntry(bytes, previous, imageSize);
             var others := DecodeEntries(d.rest, count - 1, d.value, imageSize);
             others.Good? && EncodedBy(d.rest, others, d.value, imageSize, tail)
    ensures bytes != [] && bytes[0] % 16 < 8
    ensures EncodedBy(bytes, DecodeEntries(bytes, count, previous, imageSize), previous, imageSize, [ChoiceOf(bytes[0])] + tail)
  {
    DecodeEntriesStep(bytes, count, previous, imageSize);
    DecodedEntryIsEncoded(bytes, previous, imageSize);
    hide DecodeEntry, DecodeEntries, EncodeEntry, EntryRepresentable, EncodeEntries, EntriesRepresentable, OffsetsInside;
    var d := DecodeEntry(bytes, previous, imageSize);
    var others := DecodeEntries(d.rest, count - 1, d.value, imageSize);
    ConsEncoding(bytes, ChoiceOf(bytes[0]), previous, d.value, d.rest, tail, others.value, others.rest);
    ConsOffsets(d.value, others.value, imageSize);
  }

  /** Every stream that decodes is the encoding of what it decodes to, byte for byte. */
  lemma {:induction false} DecodedEntriesAreEncoded(bytes: seq<byte>, count: nat, previous: Entry, imageSize: Word)
    returns (choices: seq<Choice>)
    requires DecodeEntries(bytes, count, previous, imageSize).Good?
    ensures |DecodeEntries(bytes, count, previous, imageSize).value| == count
    ensures EncodedBy(bytes, DecodeEntries(bytes, count, previous, imageSize), previous, imageSize, choices)
    decreases count
  {
    hide DecodeEntry, EncodedBy;
    if count == 0 {
      choices := [];
      NothingEncoded(bytes, previous, imageSize);
    } else {
      DecodeEntriesStep(bytes, count, previous, imageSize);
      var d := DecodeEntry(bytes, previous, imageSize);
      var tail := DecodedEntriesAreEncoded(d.rest, count - 1, d.value, imageSize);
      OneMoreEncoded(bytes, count, previous, imageSize, tail);
      choices := [ChoiceOf(bytes[0])] + tail;
    }
  }

  lemma SplitEncoding(bytes: seq<byte>, a: seq<byte>, b: seq<byte>, rest: seq<byte>, rest': seq<byte>)
    requires bytes == a + rest && rest == b + rest'
    ensures bytes == (a + b) + rest'
  {
  }

  lemma ConsOffsets(entry: Entry, entries: seq<Entry>, imageSize: Word)
    requires entry.offset < imageSize && OffsetsInside(entries, imageSize)
    ensures OffsetsInside([entry] + entries, imageSize)
  {
  }

  lemma ConsEncoding(bytes: seq<byte>, first: Choice, previous: Entry, entry: Entry, rest: seq<byte>,
                     tail: seq<Choice>, entries: seq<Entry>, rest': seq<byte>)
    requires EntryRepresentable(first, previous, entry) && bytes == EncodeEntry(first, previous, entry) + rest
    requires EntriesRepresentable(tail, entry, entries) && rest == EncodeEntries(tail, entry, entries) + rest'
    ensures EntriesRepresentable([first] + tail, previous, [entry] + entries)
    ensures bytes == EncodeEntries([first] + tail, previous, [entry] + entries) + rest'
  {
    assert ([first] + tail)[1..] == tail && ([entry] + entries)[1..] == entries;
    SplitEncoding(bytes, EncodeEntry(first, previous, entry), EncodeEntries(tail, entry, entries), rest, rest');
  }
}
