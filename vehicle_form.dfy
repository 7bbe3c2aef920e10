/** The single-vehicle form `VehicleForm`: a record of partly filled fields,
    edited one field at a time, submitted only when the required fields
    are truthy, and reset after a successful creation. */
module VehicleForm {
  import opened Wrappers
  import opened Fleet

  /** `parseInt` on a piece of text: `None` stands for NaN. */
  type IntParser = string -> Option<int>

  datatype Point = Point(x: int, y: int)

  /** The form record, a `Partial<Vehicle>`: `kind`, `glpCapacity` and
      `fuelCapacity` may be undefined (`None`); the other fields always hold
      a value. */
  datatype FormData = FormData(
    id: string,
    kind: Option<string>,
    glpCapacity: Option<real>,
    fuelCapacity: Option<real>,
    currentGLP: real,
    currentFuel: real,
    status: VehicleStatus,
    position: Point)

  /** The record the form starts from and is reset to (lines 13-22, 58-67). */
  const Initial: FormData :=
    FormData("", None, None, None, 0.0, 0.0, Available, Point(0, 0))

  /** The names of the form's fields. */
  datatype Field = Id | Kind | GlpCapacity | FuelCapacity | CurrentGLP | CurrentFuel | Status | CurrentPosition

  /** The value a field holds, whatever its type. */
  datatype Value =
    | Text(text: string)
    | MaybeText(maybeText: Option<string>)
    | MaybeNumber(maybeNumber: Option<real>)
    | Number(number: real)
    | StatusValue(status: VehicleStatus)
    | PointValue(point: Point)

  /** `formData[field]`. */
  function Get(d: FormData, f: Field): Value {
    match f
    case Id => Text(d.id)
    case Kind => MaybeText(d.kind)
    case GlpCapacity => MaybeNumber(d.glpCapacity)
    case FuelCapacity => MaybeNumber(d.fuelCapacity)
    case CurrentGLP => Number(d.currentGLP)
    case CurrentFuel => Number(d.currentFuel)
    case Status => StatusValue(d.status)
    case CurrentPosition => PointValue(d.position)
  }

  /** Two form records are the same exactly when every field agrees, so
      `Get` sees the whole record. */
  lemma SameFields(d: FormData, e: FormData)
    ensures d == e <==> forall f: Field :: Get(d, f) == Get(e, f)
  {
    if forall f: Field :: Get(d, f) == Get(e, f) {
      assert Get(d, Id) == Get(e, Id) && Get(d, Kind) == Get(e, Kind);
      assert Get(d, GlpCapacity) == Get(e, GlpCapacity) && Get(d, FuelCapacity) == Get(e, FuelCapacity);
      assert Get(d, CurrentGLP) == Get(e, CurrentGLP) && Get(d, CurrentFuel) == Get(e, CurrentFuel);
      assert Get(d, Status) == Get(e, Status) && Get(d, CurrentPosition) == Get(e, CurrentPosition);
    }
  }

  /** The `handleChange` calls the inputs make (lines 86, 93, 116, 129, 145,
      157, 188): one field and its new value. */
  datatype Edit =
    | SetId(id: string)
    | SetKind(kind: string)
    | SetGlpCapacity(glpCapacity: Option<real>)
    | SetFuelCapacity(fuelCapacity: Option<real>)
    | SetCurrentGLP(currentGLP: real)
    | SetCurrentFuel(currentFuel: real)
    | SetStatus(status: VehicleStatus)

  /** The field an edit writes. */
  function FieldOf(e: Edit): Field {
    match e
    case SetId(_) => Id
    case SetKind(_) => Kind
    case SetGlpCapacity(_) => GlpCapacity
    case SetFuelCapacity(_) => FuelCapacity
    case SetCurrentGLP(_) => CurrentGLP
    case SetCurrentFuel(_) => CurrentFuel
    case SetStatus(_) => Status
  }

  /** The value an edit writes. */
  function ValueOf(e: Edit): Value {
    match e
    case SetId(v) => Text(v)
    case SetKind(v) => MaybeText(Some(v))
    case SetGlpCapacity(v) => MaybeNumber(v)
    case SetFuelCapacity(v) => MaybeNumber(v)
    case SetCurrentGLP(v) => Number(v)
    case SetCurrentFuel(v) => Number(v)
    case SetStatus(v) => StatusValue(v)
  }

  /** The spread update of one field (lines 26-28): the edited field holds the
      new value and every other field keeps its old one. */
  function Apply(d: FormData, e: Edit): (r: FormData)
    ensures forall f: Field :: Get(r, f) == if f == FieldOf(e) then ValueOf(e) else Get(d, f)
  {
    match e
    case SetId(v) => d.(id := v)
    case SetKind(v) => d.(kind := Some(v))
    case SetGlpCapacity(v) => d.(glpCapacity := v)
    case SetFuelCapacity(v) => d.(fuelCapacity := v)
    case SetCurrentGLP(v) => d.(currentGLP := v)
    case SetCurrentFuel(v) => d.(currentFuel := v)
    case SetStatus(v) => d.(status := v)
  }

  /** Writing the value a field already holds changes nothing, and a second
      write to the same field overrides the first. */
  lemma ApplyIdempotent(d: FormData, e: Edit, e': Edit)
    ensures Get(d, FieldOf(e)) == ValueOf(e) ==> Apply(d, e) == d
    ensures FieldOf(e) == FieldOf(e') ==> Apply(Apply(d, e), e') == Apply(d, e')
  {
    if Get(d, FieldOf(e)) == ValueOf(e) {
      SameFields(Apply(d, e), d);
    }
    if FieldOf(e) == FieldOf(e') {
      SameFields(Apply(Apply(d, e), e'), Apply(d, e'));
    }
  }

  /** A coordinate input (line 31): the parsed integer, NaN (and 0) giving 0. */
  function Coordinate(text: string, parseInt: IntParser): (c: int)
    ensures parseInt(text).Some? ==> c == parseInt(text).value
    ensures parseInt(text).None? ==> c == 0
  {
    parseInt(text).GetOr(0)
  }

  datatype Axis = X | Y

  /** `handlePositionChange` (lines 30-39) on the record: the chosen
      coordinate is replaced, the other one and every other field kept. */
  function MovePosition(d: FormData, axis: Axis, text: string, parseInt: IntParser): (r: FormData)
    ensures forall f: Field | f != CurrentPosition :: Get(r, f) == Get(d, f)
    ensures axis == X ==> r.position == Point(Coordinate(text, parseInt), d.position.y)
    ensures axis == Y ==> r.position == Point(d.position.x, Coordinate(text, parseInt))
  {
    var c := Coordinate(text, parseInt);
    d.(position := if axis == X then d.position.(x := c) else d.position.(y := c))
  }

  /** JavaScript truthiness of a number that may be undefined or NaN. */
  predicate Truthy(n: Option<real>) {
    n.Some? && n.value != 0.0
  }

  /** A capacity input (lines 116, 129): a value that reads as 0 or NaN
      leaves the capacity undefined. */
  function CapacityInput(text: string, parseFloat: NumberParser): (r: Option<real>)
    ensures r.Some? <==> Truthy(parseFloat(text))
    ensures r.Some? ==> r == parseFloat(text)
    ensures r != Some(0.0)
  {
    if Truthy(parseFloat(text)) then parseFloat(text) else None
  }

  /** A current-level input (lines 145, 157): a value that reads as
      NaN becomes 0. */
  function LevelInput(text: string, parseFloat: NumberParser): (r: real)
    ensures parseFloat(text).Some? ==> r == parseFloat(text).value
    ensures parseFloat(text).None? ==> r == 0.0
  {
    parseFloat(text).GetOr(0.0)
  }

  /** The submit gate (line 45): id, type and both capacities truthy. */
  predicate Complete(d: FormData) {
    d.id != "" && d.kind.Some? && d.kind.value != "" && Truthy(d.glpCapacity) && Truthy(d.fuelCapacity)
  }

  /** A capacity typed as 0, or as something that is not a number, keeps the
      form from being submitted whatever the other fields hold. */
  lemma ZeroCapacityRefused(d: FormData, text: string, parseFloat: NumberParser)
    requires !Truthy(parseFloat(text))
    ensures !Complete(Apply(d, SetGlpCapacity(CapacityInput(text, parseFloat))))
    ensures !Complete(Apply(d, SetFuelCapacity(CapacityInput(text, parseFloat))))
  {
  }

  /** The initial record does not pass the gate: a reset form has to be
      filled in again. */
  lemma InitialIncomplete()
    ensures !Complete(Initial)
  {
  }

  /** The toasts the form raises itself; the creation error is reported by
      the data hook and is not part of this model. */
  datatype Notice = FieldsMissing | Registered

  /** The state of `VehicleForm`: the form record and the toasts raised. */
  class Form {
    var data: FormData
    var notices: seq<Notice>

    /** The initial state (lines 13-22). */
    constructor ()
      ensures data == Initial && notices == []
    {
      data, notices := Initial, [];
    }

    /** `handleChange` (lines 26-28): exactly one field changes. */
    method HandleChange(e: Edit)
      modifies this
      ensures forall f: Field :: Get(data, f) == if f == FieldOf(e) then ValueOf(e) else Get(old(data), f)
      ensures notices == old(notices)
    {
      data := Apply(data, e);
    }

    /** `handlePositionChange` (lines 30-39). */
    method HandlePositionChange(axis: Axis, text: string, parseInt: IntParser)
      modifies this
      ensures forall f: Field | f != CurrentPosition :: Get(data, f) == Get(old(data), f)
      ensures axis == X ==> data.position == Point(Coordinate(text, parseInt), old(data).position.y)
      ensures axis == Y ==> data.position == Point(old(data).position.x, Coordinate(text, parseInt))
      ensures notices == old(notices)
    {
      data := MovePosition(data, axis, text, parseInt);
    }

    /** `handleSubmit` (lines 41-76): an incomplete record is refused with a
        toast and no call; otherwise the record is sent to `createVehicle`,
        whose answer is `accepted`; success resets the form, failure leaves
        it as it was. `sent` is the record sent, if any. */
    method HandleSubmit(accepted: bool) returns (sent: Option<FormData>)
      modifies this
      ensures !Complete(old(data)) ==>
        sent == None && data == old(data) && notices == old(notices) + [FieldsMissing]
      ensures Complete(old(data)) ==> sent == Some(old(data))
      ensures Complete(old(data)) && accepted ==> data == Initial && notices == old(notices) + [Registered]
      ensures Complete(old(data)) && !accepted ==> data == old(data) && notices == old(notices)
    {
      if !Complete(data) {
        notices := notices + [FieldsMissing];
        return None;
      }
      sent := Some(data);
      if accepted {
        data := Initial;
        notices := notices + [Registered];
      }
    }
  }
}
