/**
 * The JavaScript values the pages handle: decoded JSON plus `undefined`.
 * Numbers are integers here; property lookup sees only the own fields of a
 * plain object.
 */
module Js {
  import opened Wrappers

  datatype Value =
    | Undefined
    | Null
    | Bool(b: bool)
    | Num(n: int)
    | Str(s: string)
    | Arr(items: seq<Value>)
    | Obj(fields: map<string, Value>)

  /** `undefined` and `null`: the values on which `.x` throws and `?.x` stops. */
  predicate Nullish(v: Value) {
    v.Undefined? || v.Null?
  }

  /** JavaScript truthiness, as used by `if (x)` and `!x`. */
  predicate Truthy(v: Value) {
    match v
    case Undefined => false
    case Null => false
    case Bool(b) => b
    case Num(n) => n != 0
    case Str(s) => s != ""
    case Arr(_) => true
    case Obj(_) => true
  }

  /** ECMAScript ToBoolean on the modelled values: exactly five of them are falsy. */
  lemma FalsyValues(v: Value)
    ensures !Truthy(v) <==> v == Undefined || v == Null || v == Bool(false) || v == Num(0) || v == Str("")
  {
  }

  /** `v.key`: None when it throws a TypeError, otherwise the property (Undefined if missing). */
  function Member(v: Value, key: string): (r: Option<Value>)
    ensures r.None? <==> Nullish(v)
    ensures v.Obj? && key in v.fields ==> r == Some(v.fields[key])
    ensures !Nullish(v) && !(v.Obj? && key in v.fields) ==> r == Some(Undefined)
  {
    match v
    case Undefined => None
    case Null => None
    case Obj(fields) => Some(if key in fields then fields[key] else Undefined)
    case _ => Some(Undefined)
  }

  /** `v?.[key]`: optional chaining never throws and yields Undefined past a nullish link. */
  function Chain(v: Value, key: string): (r: Value)
    ensures Nullish(v) ==> r == Undefined
    ensures !Nullish(v) ==> Some(r) == Member(v, key)
  {
    match Member(v, key)
    case None => Undefined
    case Some(x) => x
  }
}
