/** The three mapped classes of server/models.py and the `@validates` hooks
    SQLAlchemy runs whenever one of their column attributes is assigned, at
    construction as well as by `setattr`. */
module Models {
  import opened Wrappers
  import opened Values

  /** A row of `planets`. No column has a validator. */
  datatype Planet = Planet(id: int, name: Value, distanceFromEarth: Value, nearestStar: Value)

  /** A row of `scientists`. */
  datatype Scientist = Scientist(id: int, name: Value, fieldOfStudy: Value)

  /** A row of `missions`; `scientistId` and `planetId` are the foreign-key columns. */
  datatype Mission = Mission(id: int, name: Value, scientistId: Value, planetId: Value)

  /** The assignable (non-key) columns of the three tables. */
  datatype Column =
    | PlanetName | PlanetDistanceFromEarth | PlanetNearestStar
    | ScientistName | ScientistFieldOfStudy
    | MissionName | MissionScientistId | MissionPlanetId

  /** What a handler's `try` block can raise. The handlers catch every kind
      alike; the kinds are kept apart here only to say which step raised. */
  datatype Exception =
    | ValueError(message: string)   // raised by a validator
    | TypeError                     // `len` applied to a value that has none
    | KeyError(key: string)         // `data[key]` on a body without that key

  const ScientistNameMessage := "A scientist needs a name of type string"
  const ScientistFieldMessage := "A scientist needs a field of study that is of type string"
  const MissionNameMessage := "A mission must have a name"
  const MissionScientistMessage := "A mission must have a valid scientist id"
  const MissionPlanetMessage := "A mission must have a valid planet id"

  /** `Scientist.validate_name`, registered for both `name` and
      `field_of_study`: a non-empty `str` is stored as given. */
  function ValidateScientistColumn(col: Column, v: Value): (r: Result<Value, Exception>)
    requires col == ScientistName || col == ScientistFieldOfStudy
    ensures r.Ok? <==> NonEmptyStr(v)
    ensures r.Ok? ==> r.value == v
    ensures r.Err? ==> r.error.ValueError?
  {
    if col == ScientistName then
      if v.Str? && |v.s| > 0 then Ok(v) else Err(ValueError(ScientistNameMessage))
    else
      if v.Str? && |v.s| > 0 then Ok(v) else Err(ValueError(ScientistFieldMessage))
  }

  /** `Mission.validate_name`: `name and len(name) > 0`. A falsy value fails
      the first operand; a truthy value without a length makes `len` raise. */
  function ValidateMissionName(v: Value): (r: Result<Value, Exception>)
    ensures r.Ok? <==> Truthy(v) && Len(v).Some?
    ensures r.Ok? ==> r.value == v
    ensures !Truthy(v) ==> r == Err(ValueError(MissionNameMessage))
  {
    if !Truthy(v) then Err(ValueError(MissionNameMessage))
    else match Len(v)
      case None => Err(TypeError)
      case Some(n) => if n > 0 then Ok(v) else Err(ValueError(MissionNameMessage))
  }

  /** The object `Scientist.query.filter(...)` (or `Planet.query.filter(...)`)
      built by the id validators: a query that has not been run, and a Python
      object without `__bool__` or `__len__`, so `not query` is always false
      whatever rows the table holds. */
  const QueryIsTruthy := true

  /** `Mission.validate_scientist_id`: rejects `None` only. */
  function ValidateScientistId(v: Value): (r: Result<Value, Exception>)
    ensures r.Ok? <==> v != Null
    ensures r.Ok? ==> r.value == v
  {
    if !QueryIsTruthy || v == Null then Err(ValueError(MissionScientistMessage)) else Ok(v)
  }

  /** `Mission.validate_planet_id`: rejects `None` only. */
  function ValidatePlanetId(v: Value): (r: Result<Value, Exception>)
    ensures r.Ok? <==> v != Null
    ensures r.Ok? ==> r.value == v
  {
    if !QueryIsTruthy || v == Null then Err(ValueError(MissionPlanetMessage)) else Ok(v)
  }

  /** The hook SQLAlchemy runs when `col` is assigned `v`: the value stored, or
      the exception raised. A column without a validator stores what it is given. */
  function Validate(col: Column, v: Value): (r: Result<Value, Exception>)
    ensures r.Ok? ==> r.value == v
  {
    match col
    case ScientistName => ValidateScientistColumn(col, v)
    case ScientistFieldOfStudy => ValidateScientistColumn(col, v)
    case MissionName => ValidateMissionName(v)
    case MissionScientistId => ValidateScientistId(v)
    case MissionPlanetId => ValidatePlanetId(v)
    case PlanetName => Ok(v)
    case PlanetDistanceFromEarth => Ok(v)
    case PlanetNearestStar => Ok(v)
  }

  /** The columns whose assignment the models validate. */
  predicate Validated(col: Column) {
    !(col.PlanetName? || col.PlanetDistanceFromEarth? || col.PlanetNearestStar?)
  }

  /** Planet declares no validator: every value of every column is admitted unchanged. */
  lemma PlanetAdmitsEverything(col: Column, v: Value)
    requires !Validated(col)
    ensures Validate(col, v) == Ok(v)
  {
  }

  /** Validators are the identity on what they accept, so assigning an accepted
      value a second time is accepted again with the same result. */
  lemma RevalidateAccepted(col: Column, v: Value)
    requires Validate(col, v).Ok?
    ensures Validate(col, Validate(col, v).value) == Validate(col, v)
  {
  }

  /** The mission name validator, stated over the kinds of JSON value: it accepts
      exactly the non-empty strings, arrays and objects; every falsy value
      (`None`, `false`, `0`, `""`, `[]`, `{}`) is refused with its message, and
      a truthy number or boolean is refused by `len` raising. */
  lemma MissionNameAcceptsExactly(v: Value)
    ensures Validate(MissionName, v).Ok? <==>
              NonEmptyStr(v) || (v.Array? && v.length > 0) || (v.Object? && v.size > 0)
    ensures v.Str? ==> (Validate(MissionName, v).Ok? <==> NonEmptyStr(v))
    ensures (v.Num? || v.Bool?) && Truthy(v) ==> Validate(MissionName, v) == Err(TypeError)
  {
  }

  /** A value that passes the mission name validator and can be bound at commit
      is a non-empty string: what the scientist validators demand outright. */
  lemma StoredMissionNameIsNonEmptyStr(v: Value)
    requires Validate(MissionName, v).Ok? && Bindable(v)
    ensures NonEmptyStr(v)
    ensures Validate(ScientistName, v) == Ok(v)
  {
  }

  /** A non-empty string is accepted unchanged by every column. */
  lemma NonEmptyStrAcceptedEverywhere(col: Column, v: Value)
    requires NonEmptyStr(v)
    ensures Validate(col, v) == Ok(v)
  {
  }

  /** Neither id validator consults a table: an id is accepted or refused on
      its own, so an id that matches no row is accepted. */
  lemma IdValidatorsIgnoreExistence(v: Value)
    ensures Validate(MissionScientistId, v).Ok? <==> v != Null
    ensures Validate(MissionPlanetId, v).Ok? <==> v != Null
    ensures forall n: int :: Validate(MissionScientistId, Num(n)) == Ok(Num(n))
    ensures forall n: int :: Validate(MissionPlanetId, Num(n)) == Ok(Num(n))
  {
  }
}
