/** The values a request body can carry, as the Python handlers see them after
    the JSON body has been decoded. */
module Values {
  import opened Wrappers

  /** A decoded JSON value. A JSON number is modelled as an integer. Arrays and
      objects are kept abstract: the only things the validators observe of them
      are their truthiness and their length. */
  datatype Value =
    | Null
    | Bool(b: bool)
    | Num(n: int)
    | Str(s: string)
    | Array(length: nat)
    | Object(size: nat)

  /** Python's `bool(v)`. */
  predicate Truthy(v: Value) {
    match v
    case Null => false
    case Bool(b) => b
    case Num(n) => n != 0
    case Str(s) => s != []
    case Array(n) => n > 0
    case Object(n) => n > 0
  }

  /** Python's `len(v)`; None where `len` raises TypeError. */
  function Len(v: Value): (r: Option<nat>)
    ensures r.Some? <==> v.Str? || v.Array? || v.Object?
    ensures r.Some? ==> (r.value > 0 <==> Truthy(v))
  {
    match v
    case Str(s) => Some(|s|)
    case Array(n) => Some(n)
    case Object(n) => Some(n)
    case _ => None
  }

  /** `type(v) == str and len(v) > 0`. */
  predicate NonEmptyStr(v: Value) {
    v.Str? && |v.s| > 0
  }

  /** The range of a signed 64-bit integer, the widest integer SQLite stores. */
  const MinInt64: int := -0x8000_0000_0000_0000
  const MaxInt64: int := 0x7FFF_FFFF_FFFF_FFFF

  /** Whether the database driver can bind `v` as a column parameter when the
      session commits. A JSON array or object (a Python list or dict) cannot be
      bound, nor can an integer outside the signed 64-bit range (the driver
      raises OverflowError); in either case the commit raises. */
  predicate Bindable(v: Value) {
    && !v.Array? && !v.Object?
    && (v.Num? ==> MinInt64 <= v.n <= MaxInt64)
  }
}
