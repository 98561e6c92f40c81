/**
  The JSON-safe value model the bridge hands back to its callers: the Python
  values `json.dumps` accepts (None, bool, int, float, str and lists of them).
  Floating-point numbers are kept opaque: the bridge only moves them around.
 */
module Json {

  datatype Option<+T> = None | Some(value: T)

  /** An IEEE-754 double, identified by its bit pattern; never computed with. */
  datatype Float = Float(bits: bv64)

  datatype JsonValue =
    | JNull
    | JBool(b: bool)
    | JInt(i: int)
    | JFloat(x: Float)
    | JStr(s: string)
    | JList(items: seq<JsonValue>)

  /** A value that is not a list: the elements a nested list is made of. */
  predicate IsScalar(j: JsonValue) {
    !j.JList?
  }

  predicate AllScalars(xs: seq<JsonValue>) {
    forall i :: 0 <= i < |xs| ==> IsScalar(xs[i])
  }

  /** The scalars of a (nested) list, in the order a reader meets them. */
  function Flatten(j: JsonValue): seq<JsonValue>
    decreases j, 1
  {
    match j
    case JList(items) => FlattenAll(items)
    case _ => [j]
  }

  function FlattenAll(items: seq<JsonValue>): seq<JsonValue>
    decreases items, 0
  {
    if |items| == 0 then []
    else Flatten(items[0]) + FlattenAll(items[1..])
  }

  /**
    `j` is a rectangular nesting of lists with the given dimensions: the empty
    shape is a scalar, and shape `[n] + rest` is a list of `n` values of shape
    `rest`.
   */
  predicate HasShape(j: JsonValue, shape: seq<nat>)
    decreases |shape|
  {
    if |shape| == 0 then IsScalar(j)
    else
      && j.JList?
      && |j.items| == shape[0]
      && forall i :: 0 <= i < |j.items| ==> HasShape(j.items[i], shape[1..])
  }
}
