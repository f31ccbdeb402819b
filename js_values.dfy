/** The JavaScript values that cross the boundaries of the model: what the
    classifier's JSON reply holds for each tag, and what the capture script
    finds in the recommendation response. */
module JsValues {

  datatype Option<T> = None | Some(value: T)

  /** A JSON-shaped JavaScript value. Numbers are integers here; objects are
      their own enumerable properties. */
  datatype JsValue =
    | Undefined
    | Null
    | Bool(b: bool)
    | Num(n: int)
    | Str(s: string)
    | Arr(items: seq<JsValue>)
    | Obj(props: map<string, JsValue>)

  /** `Boolean(v)`: what `if (v)`, `&&` and `filter(Boolean)` test. */
  predicate Truthy(v: JsValue)
  {
    match v
    case Undefined => false
    case Null => false
    case Bool(b) => b
    case Num(n) => n != 0
    case Str(s) => s != ""
    case Arr(_) => true
    case Obj(_) => true
  }

  /** `typeof v`. */
  function TypeOf(v: JsValue): string
  {
    match v
    case Undefined => "undefined"
    case Null => "object"
    case Bool(_) => "boolean"
    case Num(_) => "number"
    case Str(_) => "string"
    case Arr(_) => "object"
    case Obj(_) => "object"
  }

  /** `v.key` for a named property other than `length` and the inherited ones:
      `None` stands for the `TypeError` thrown on `null` and `undefined`. */
  function Get(v: JsValue, key: string): (r: Option<JsValue>)
    ensures r.None? <==> v.Null? || v.Undefined?
  {
    match v
    case Undefined => None
    case Null => None
    case Obj(props) => Some(if key in props then props[key] else Undefined)
    case _ => Some(Undefined)
  }
}
