/** The loosely typed values the transcript component reads out of a
    response body, with JavaScript's truthiness, `||` and property access. */
module Json {

  import opened Wrappers
  import opened Clock

  /** A value decoded from JSON, plus `Undefined`, which is what a missing
      property reads as. A numeral too large for a double, such as `1e400`,
      decodes to an infinity, so a number is any `JsNumber`. */
  datatype Value =
    | Undefined
    | Null
    | Bool(b: bool)
    | Num(n: JsNumber)
    | Str(s: string)
    | Arr(items: seq<Value>)
    | Obj(props: map<string, Value>)

  predicate Nullish(v: Value) {
    v.Undefined? || v.Null?
  }

  /** JavaScript's truthiness: undefined, null, false, 0, NaN and "" are
      falsy; every array and object is truthy. */
  predicate Truthy(v: Value)
    ensures Truthy(v) ==> !Nullish(v)
    ensures v.Arr? || v.Obj? ==> Truthy(v)
  {
    match v
    case Undefined => false
    case Null => false
    case Bool(b) => b
    case Num(n) => (n.Finite? && n.value != 0.0) || n.PositiveInfinity? || n.NegativeInfinity?
    case Str(s) => |s| > 0
    case Arr(_) => true
    case Obj(_) => true
  }

  /** `a || b`: the left operand when it is truthy, the right one otherwise. */
  function Or(a: Value, b: Value): (r: Value)
    ensures r == a || r == b
    ensures Truthy(r) <==> Truthy(a) || Truthy(b)
  {
    if Truthy(a) then a else b
  }

  /** `v.key`, for the keys this component reads ("text", "start",
      "duration", "transcript", "error"), none of which a built-in
      prototype defines: a TypeError (`None`) on null and undefined, the own
      property of an object, and undefined on every other value. */
  function Get(v: Value, key: string): (r: Option<Value>)
    ensures r.None? <==> Nullish(v)
    ensures v.Obj? && key in v.props ==> r == Some(v.props[key])
    ensures r.Some? && !(v.Obj? && key in v.props) ==> r == Some(Undefined)
  {
    match v
    case Undefined => None
    case Null => None
    case Obj(props) => Some(if key in props then props[key] else Undefined)
    case _ => Some(Undefined)
  }

  /** `v.key` on a value known not to be null or undefined. */
  function Prop(v: Value, key: string): Value
    requires !Nullish(v)
  {
    Get(v, key).value
  }
}
