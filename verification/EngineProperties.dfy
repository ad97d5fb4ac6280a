/** Typed engine properties: their schemas, and the bytes that carry their values. */
module EngineProperties {
  import opened Words
  import opened EngineBridge

  type Bits = x: int | 0 <= x < 0x1_0000_0000

  const MATRIX_CELLS: nat := 16
  const MAX_PROPERTY_SIZE: nat := 64

  type Matrix = cells: seq<Bits> | |cells| == MATRIX_CELLS witness seq(MATRIX_CELLS, _ => 0)

  datatype PropertyId =
    | CameraWorldFov | CameraFirstPersonFov | CameraInverseViewProjection
    | WeatherCurrentFormId | WeatherOutgoingFormId | WeatherTransition | CalendarGameHour
    | OtherProperty(code: byte)

  datatype ValueKind = Float32 | UInt32 | Matrix4x4

  datatype Access = ObserveOnly | ObserveAndReversibleObjectWrite

  /** A float is its 32-bit pattern; what a pattern means is left to `FloatRules`. */
  datatype PropertyValue = FloatValue(bits: Bits) | UIntValue(number: Bits) | MatrixValue(cells: Matrix)

  datatype Schema = Schema(
    id: PropertyId, kind: ValueKind, access: Access, capability: byte,
    ranged: bool, minimum: Bits, maximum: Bits)

  const CAMERA: byte := 0
  const WEATHER: byte := 2

  // 1.0F, 179.0F and 24.0F
  const ONE: Bits := 0x3F80_0000
  const WIDEST_FOV: Bits := 0x4333_0000
  const DAY_HOURS: Bits := 0x41C0_0000

  /** The property table, looked up by identifier; a code outside the enumeration has no entry. */
  function FindById(id: PropertyId): Option<Schema> {
    match id
    case CameraWorldFov => Some(Schema(id, Float32, ObserveAndReversibleObjectWrite, CAMERA, true, ONE, WIDEST_FOV))
    case CameraFirstPersonFov => Some(Schema(id, Float32, ObserveAndReversibleObjectWrite, CAMERA, true, ONE, WIDEST_FOV))
    case CameraInverseViewProjection => Some(Schema(id, Matrix4x4, ObserveOnly, CAMERA, false, 0, 0))
    case WeatherCurrentFormId => Some(Schema(id, UInt32, ObserveOnly, WEATHER, false, 0, 0))
    case WeatherOutgoingFormId => Some(Schema(id, UInt32, ObserveOnly, WEATHER, false, 0, 0))
    case WeatherTransition => Some(Schema(id, Float32, ObserveOnly, WEATHER, true, 0, ONE))
    case CalendarGameHour => Some(Schema(id, Float32, ObserveOnly, WEATHER, true, 0, DAY_HOURS))
    case OtherProperty(_) => None
  }

  /** The exact name of each property in the table. */
  function NameOf(id: PropertyId): string {
    match id
    case CameraWorldFov => "camera.world_fov"
    case CameraFirstPersonFov => "camera.first_person_fov"
    case CameraInverseViewProjection => "camera.inverse_view_projection"
    case WeatherCurrentFormId => "weather.current_form_id"
    case WeatherOutgoingFormId => "weather.outgoing_form_id"
    case WeatherTransition => "weather.transition"
    case CalendarGameHour => "calendar.game_hour"
    case OtherProperty(_) => ""
  }

  const PROPERTIES: seq<PropertyId> := [
    CameraWorldFov, CameraFirstPersonFov, CameraInverseViewProjection, WeatherCurrentFormId,
    WeatherOutgoingFormId, WeatherTransition, CalendarGameHour
  ]

  /** The first property among `ids` with the given name, and its schema. */
  function FindByName(ids: seq<PropertyId>, name: string): (schema: Option<Schema>)
    ensures schema.Some? ==> NameOf(schema.value.id) == name && FindById(schema.value.id) == schema
  {
    if ids == [] then None
    else if NameOf(ids[0]) == name && FindById(ids[0]).Some? then FindById(ids[0])
    else FindByName(ids[1..], name)
  }

  /** The lookup is the one walk over the table, in order. */
  lemma FindByNameSteps(ids: seq<PropertyId>, id: PropertyId, name: string)
    requires FindById(id).Some?
    ensures FindByName([id] + ids, name) == if NameOf(id) == name then FindById(id) else FindByName(ids, name)
  {
    assert ([id] + ids)[1..] == ids;
  }

  lemma WeatherNames(name: string)
    ensures FindByName([WeatherCurrentFormId, WeatherOutgoingFormId, WeatherTransition, CalendarGameHour], name) ==
            if name == "weather.current_form_id" then Some(Schema(WeatherCurrentFormId, UInt32, ObserveOnly, 2, false, 0, 0))
            else if name == "weather.outgoing_form_id" then Some(Schema(WeatherOutgoingFormId, UInt32, ObserveOnly, 2, false, 0, 0))
            else if name == "weather.transition" then Some(Schema(WeatherTransition, Float32, ObserveOnly, 2, true, 0, 0x3F80_0000))
            else if name == "calendar.game_hour" then Some(Schema(CalendarGameHour, Float32, ObserveOnly, 2, true, 0, 0x41C0_0000))
            else None
  {
    hide FindByName;
    FindByNameSteps([WeatherOutgoingFormId, WeatherTransition, CalendarGameHour], WeatherCurrentFormId, name);
    FindByNameSteps([WeatherTransition, CalendarGameHour], WeatherOutgoingFormId, name);
    FindByNameSteps([CalendarGameHour], WeatherTransition, name);
    FindByNameSteps([], CalendarGameHour, name);
    NothingNamed(name);
    assert [CalendarGameHour] + [] == [CalendarGameHour];
    assert [WeatherTransition] + [CalendarGameHour] == [WeatherTransition, CalendarGameHour];
    assert [WeatherOutgoingFormId] + [WeatherTransition, CalendarGameHour] == [WeatherOutgoingFormId, WeatherTransition, CalendarGameHour];
    assert [WeatherCurrentFormId] + [WeatherOutgoingFormId, WeatherTransition, CalendarGameHour]
        == [WeatherCurrentFormId, WeatherOutgoingFormId, WeatherTransition, CalendarGameHour];
  }

  lemma NothingNamed(name: string)
    ensures FindByName([], name) == None
  {
  }

  /** The name decides the property, and only the two fields of view may be written. */
  lemma FindByNameCodes(name: string)
    ensures FindByName(PROPERTIES, name) ==
            if name == "camera.world_fov" then
              Some(Schema(CameraWorldFov, Float32, ObserveAndReversibleObjectWrite, 0, true, 0x3F80_0000, 0x4333_0000))
            else if name == "camera.first_person_fov" then
              Some(Schema(CameraFirstPersonFov, Float32, ObserveAndReversibleObjectWrite, 0, true, 0x3F80_0000, 0x4333_0000))
            else if name == "camera.inverse_view_projection" then
              Some(Schema(CameraInverseViewProjection, Matrix4x4, ObserveOnly, 0, false, 0, 0))
            else if name == "weather.current_form_id" then Some(Schema(WeatherCurrentFormId, UInt32, ObserveOnly, 2, false, 0, 0))
            else if name == "weather.outgoing_form_id" then Some(Schema(WeatherOutgoingFormId, UInt32, ObserveOnly, 2, false, 0, 0))
            else if name == "weather.transition" then Some(Schema(WeatherTransition, Float32, ObserveOnly, 2, true, 0, 0x3F80_0000))
            else if name == "calendar.game_hour" then Some(Schema(CalendarGameHour, Float32, ObserveOnly, 2, true, 0, 0x41C0_0000))
            else None
  {
    hide FindByName;
    var weather := [WeatherCurrentFormId, WeatherOutgoingFormId, WeatherTransition, CalendarGameHour];
    FindByNameSteps([CameraFirstPersonFov, CameraInverseViewProjection] + weather, CameraWorldFov, name);
    FindByNameSteps([CameraInverseViewProjection] + weather, CameraFirstPersonFov, name);
    FindByNameSteps(weather, CameraInverseViewProjection, name);
    assert PROPERTIES == [CameraWorldFov] + ([CameraFirstPersonFov, CameraInverseViewProjection] + weather);
    assert [CameraFirstPersonFov, CameraInverseViewProjection] + weather == [CameraFirstPersonFov] + ([CameraInverseViewProjection] + weather);
    WeatherNames(name);
  }

  /** The IEEE facts validation needs: which patterns are finite, and which lie between two others. */
  datatype FloatRules = FloatRules(finite: Bits -> bool, within: (Bits, Bits, Bits) -> bool)

  datatype PropertyDiagnostic =
    | PropertyOk | UnknownIdentifier | PropertyRuntimeNotAdmitted | PropertyCapabilityUnavailable
    | ValueTypeMismatch | ValueOutOfRange | PropertyMutationNotAllowed | BindingUnavailable | TransactionRejected

  function Validate(rules: FloatRules, schema: Schema, value: PropertyValue): PropertyDiagnostic {
    match (schema.kind, value)
    case (Float32, FloatValue(bits)) =>
      if !rules.finite(bits) || (schema.ranged && !rules.within(bits, schema.minimum, schema.maximum))
      then ValueOutOfRange else PropertyOk
    case (UInt32, UIntValue(_)) => PropertyOk
    case (Matrix4x4, MatrixValue(cells)) =>
      if forall i | 0 <= i < |cells| :: rules.finite(cells[i]) then PropertyOk else ValueOutOfRange
    case _ => ValueTypeMismatch
  }

  /** Which values each diagnostic turns away: another kind's, or one with a pattern that is not finite or, in a
      ranged schema, not between its bounds. */
  lemma ValidateCodes(rules: FloatRules, schema: Schema, value: PropertyValue)
    ensures Validate(rules, schema, value) == ValueTypeMismatch <==> !HasKind(value, schema.kind)
    ensures Validate(rules, schema, value) == ValueOutOfRange <==>
              && HasKind(value, schema.kind)
              && match value
                 case FloatValue(bits) => !rules.finite(bits) || (schema.ranged && !rules.within(bits, schema.minimum, schema.maximum))
                 case UIntValue(_) => false
                 case MatrixValue(cells) => exists i | 0 <= i < MATRIX_CELLS :: !rules.finite(cells[i])
    ensures Validate(rules, schema, value) in {PropertyOk, ValueTypeMismatch, ValueOutOfRange}
  {
  }

  function ValueSize(kind: ValueKind): nat {
    match kind
    case Float32 | UInt32 => 4
    case Matrix4x4 => MAX_PROPERTY_SIZE
  }

  /** The value's variant is the one its kind calls for. */
  predicate HasKind(value: PropertyValue, kind: ValueKind) {
    match kind
    case Float32 => value.FloatValue?
    case UInt32 => value.UIntValue?
    case Matrix4x4 => value.MatrixValue?
  }

  function EncodeCells(cells: seq<Bits>): (bytes: seq<byte>)
    ensures |bytes| == 4 * |cells|
  {
    if cells == [] then [] else LittleEndian(cells[0], 4) + EncodeCells(cells[1..])
  }

  function Encode(value: PropertyValue): seq<byte> {
    match value
    case FloatValue(bits) => LittleEndian(bits, 4)
    case UIntValue(number) => LittleEndian(number, 4)
    case MatrixValue(cells) => EncodeCells(cells)
  }

  /** The encoder: only a value of the schema's own kind has bytes. */
  function EncodeValue(schema: Schema, value: PropertyValue): Option<seq<byte>> {
    match (schema.kind, value)
    case (Float32, FloatValue(_)) | (UInt32, UIntValue(_)) | (Matrix4x4, MatrixValue(_)) => Some(Encode(value))
    case _ => None
  }

  function DecodeWord(bytes: seq<byte>): Bits
    requires |bytes| == 4
  {
    PowerValues();
    FromLittleEndian(bytes)
  }

  function DecodeCells(bytes: seq<byte>): (cells: seq<Bits>)
    requires |bytes| % 4 == 0
    ensures |cells| == |bytes| / 4
  {
    if bytes == [] then [] else [DecodeWord(bytes[..4])] + DecodeCells(bytes[4..])
  }

  function Decode(kind: ValueKind, bytes: seq<byte>): (value: PropertyValue)
    requires |bytes| == ValueSize(kind)
    ensures HasKind(value, kind)
  {
    match kind
    case Float32 => FloatValue(DecodeWord(bytes))
    case UInt32 => UIntValue(DecodeWord(bytes))
    case Matrix4x4 => MatrixValue(DecodeCells(bytes))
  }

  lemma {:induction false} CellsRoundTrip(cells: seq<Bits>)
    ensures DecodeCells(EncodeCells(cells)) == cells
  {
    if cells != [] {
      PowerValues();
      CellsRoundTrip(cells[1..]);
      DecodeEncoded(cells[0], 4);
      var bytes := EncodeCells(cells);
      assert bytes[..4] == LittleEndian(cells[0], 4);
      assert bytes[4..] == EncodeCells(cells[1..]);
    }
  }

  /** Cell `k` is the `k`-th group of four bytes, the least significant first. */
  lemma {:induction false} CellsInOrder(cells: seq<Bits>, k: nat)
    requires k < |cells|
    ensures var bytes := EncodeCells(cells);
            LittleWord(bytes[4 * k], bytes[4 * k + 1], bytes[4 * k + 2], bytes[4 * k + 3]) == cells[k]
  {
    var bytes, first, others := EncodeCells(cells), LittleEndian(cells[0], 4), EncodeCells(cells[1..]);
    assert bytes == first + others;
    if k == 0 {
      PowerValues();
      DecodeEncoded(cells[0], 4);
      FourBytes(first);
      assert bytes[0] == first[0] && bytes[1] == first[1] && bytes[2] == first[2] && bytes[3] == first[3];
    } else {
      CellsInOrder(cells[1..], k - 1);
      var at := 4 * (k - 1);
      assert bytes[at + 4] == others[at] && bytes[at + 5] == others[at + 1];
      assert bytes[at + 6] == others[at + 2] && bytes[at + 7] == others[at + 3];
    }
  }

  /** The bytes of a value: its pattern, or its cells in order, each least significant byte first. */
  lemma EncodeLayout(value: PropertyValue)
    ensures var bytes := Encode(value);
            match value
            case FloatValue(bits) => |bytes| == 4 && LittleWord(bytes[0], bytes[1], bytes[2], bytes[3]) == bits
            case UIntValue(number) => |bytes| == 4 && LittleWord(bytes[0], bytes[1], bytes[2], bytes[3]) == number
            case MatrixValue(cells) =>
              && |bytes| == 64
              && forall k | 0 <= k < 16 ::
                   LittleWord(bytes[4 * k], bytes[4 * k + 1], bytes[4 * k + 2], bytes[4 * k + 3]) == cells[k]
  {
    PowerValues();
    match value
    case FloatValue(bits) =>
      DecodeEncoded(bits, 4);
      FourBytes(Encode(value));
    case UIntValue(number) =>
      DecodeEncoded(number, 4);
      FourBytes(Encode(value));
    case MatrixValue(cells) =>
      forall k | 0 <= k < 16
        ensures LittleWord(Encode(value)[4 * k], Encode(value)[4 * k + 1], Encode(value)[4 * k + 2], Encode(value)[4 * k + 3]) == cells[k]
      {
        CellsInOrder(cells, k);
      }
  }

  lemma {:induction false} BytesRoundTrip(bytes: seq<byte>)
    requires |bytes| % 4 == 0
    ensures EncodeCells(DecodeCells(bytes)) == bytes
  {
    if bytes != [] {
      BytesRoundTrip(bytes[4..]);
      EncodeDecoded(bytes[..4], 4);
      assert DecodeCells(bytes)[1..] == DecodeCells(bytes[4..]);
      assert bytes == bytes[..4] + bytes[4..];
    }
  }

  /** Encoder and decoder are inverse: a value of the right kind survives the trip through bytes. */
  lemma DecodeOfEncode(kind: ValueKind, value: PropertyValue)
    requires HasKind(value, kind)
    ensures |Encode(value)| == ValueSize(kind)
    ensures Decode(kind, Encode(value)) == value
  {
    PowerValues();
    match value
    case FloatValue(bits) => DecodeEncoded(bits, 4);
    case UIntValue(number) => DecodeEncoded(number, 4);
    case MatrixValue(cells) => CellsRoundTrip(cells);
  }

  /** And any bytes of the right size survive the trip through a value. */
  lemma EncodeOfDecode(kind: ValueKind, bytes: seq<byte>)
    requires |bytes| == ValueSize(kind)
    ensures Encode(Decode(kind, bytes)) == bytes
  {
    match kind
    case Float32 | UInt32 => EncodeDecoded(bytes, 4);
    case Matrix4x4 => BytesRoundTrip(bytes);
  }

  predicate BaselineIsValid(rules: FloatRules, schema: Schema, bytes: seq<byte>) {
    && |bytes| == ValueSize(schema.kind)
    && Validate(rules, schema, Decode(schema.kind, bytes)) == PropertyOk
  }
}
