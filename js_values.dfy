/**
 * The JavaScript values the services handle: records read from the server, filter
 * objects and the criteria inside them, and the few coercions the code relies on
 * (truthiness, `typeof`, lodash `isEmpty`, numeric comparison).
 */
module JsValues {
  import opened Wrappers
  import Strings

  /** The filter classes of the advanced-filter library a filter field can be an instance of. */
  datatype FilterKind = IdKind | NumberKind | StringKind | DateKind

  /**
   * A JavaScript value. Numbers are integers; a `Moment` is represented by its time in
   * milliseconds; `Criterion` is an instance of one of the filter classes, carrying its
   * own enumerable entries in order (operator name, operand).
   */
  datatype Value =
    | Undefined
    | Null
    | Bool(b: bool)
    | Num(n: int)
    | Str(s: string)
    | Moment(time: int)
    | Arr(elems: seq<Value>)
    | Obj(fields: map<string, Value>)
    | Criterion(kind: FilterKind, ops: seq<(string, Value)>)

  /** A record (a model object) whose key order never matters to the services. */
  type Rec = map<string, Value>

  /** `r[k]`: a missing key reads as `undefined`. */
  function Get(r: Rec, k: string): Value {
    if k in r then r[k] else Undefined
  }

  /** JavaScript truthiness. */
  predicate Truthy(v: Value) {
    match v
    case Undefined => false
    case Null => false
    case Bool(b) => b
    case Num(n) => n != 0
    case Str(s) => |s| > 0
    case _ => true
  }

  /** `typeof v === "object" && v !== null`. */
  predicate IsObject(v: Value) {
    v.Moment? || v.Arr? || v.Obj? || v.Criterion?
  }

  /** `v[k]` on a plain object; every other value is read as having no such field. */
  function Prop(v: Value, k: string): Value {
    if v.Obj? then Get(v.fields, k) else Undefined
  }

  /** `{ ...v }` for the values the services spread: a plain object is copied, anything else gives `{}`. */
  function SpreadFields(v: Value): Rec {
    if v.Obj? then v.fields else map[]
  }

  /**
   * lodash `isEmpty`: strings and arrays by length, plain objects and filter instances
   * by their own keys; numbers, booleans, `null` and `undefined` are empty; a moment
   * object has own keys and is not.
   */
  predicate LodashIsEmpty(v: Value) {
    match v
    case Str(s) => |s| == 0
    case Arr(e) => |e| == 0
    case Obj(m) => |m| == 0
    case Criterion(_, ops) => |ops| == 0
    case Moment(_) => false
    case _ => true
  }

  /**
   * The number a relational operator (`<`, `<=`, `>`, `>=`) converts a value to,
   * `None` standing for `NaN`. An array converts through its text: `[]` reads as 0 and
   * a one-element array as its element's text, which is empty for `null` and `undefined`.
   */
  function ToNumber(v: Value): Option<int> {
    match v
    case Null => Some(0)
    case Bool(b) => Some(if b then 1 else 0)
    case Num(n) => Some(n)
    case Str(s) => if Strings.AllDigits(s) then Some(Strings.ParseNat(s)) else None
    case Moment(t) => Some(t)
    case Arr(e) =>
      if |e| == 0 then Some(0)
      else if |e| > 1 then None
      else (match e[0]
            case Undefined => Some(0)
            case Null => Some(0)
            case Num(_) => ToNumber(e[0])
            case Str(_) => ToNumber(e[0])
            case Arr(_) => ToNumber(e[0])
            case _ => None)
    case _ => None
  }
}
