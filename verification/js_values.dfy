/** The JavaScript values the engine passes around (props, keys, refs,
    element types, children, executors), the React symbols
    (packages/shared/ReactSymbols.ts) and the element record
    (packages/shared/ReactTypes.ts).

    Numbers are modelled as integers. Objects are maps from property name to
    value, so property enumeration order is not modelled. Contexts,
    providers, thenables and functions carry an id and are compared by it;
    plain objects, arrays and elements carry none, so two with the same
    contents are equal. */
module JsValues {
  import opened Wrappers

  /** The `Symbol.for('react.*')` constants. */
  datatype ReactSymbol =
    | ElementSymbol
    | FragmentSymbol
    | ContextSymbol
    | ProviderSymbol
    | SuspenseSymbol
    | MemoSymbol

  datatype Value =
    | Undefined
    | Null
    | Bool(b: bool)
    | Num(n: int)
    | Str(s: string)
    | Symbol(sym: ReactSymbol)
      /** A callable, identified by `fid`; what calling it does is a parameter of the operations that call it. */
    | Fun(fid: nat)
    | Arr(items: seq<Value>)
    | Obj(fields: map<string, Value>)
      /** A React element `{$$typeof, type, key, ref, props}`. */
    | Elem(typeOf: ReactSymbol, ty: Value, key: Value, ref: Value, props: Value)
      /** A context object made by createContext, identified by `cid`. */
    | ContextObj(cid: nat)
      /** The Provider object of context `cid`. */
    | ProviderObj(cid: nat)
      /** An object with a callable `then` (a thenable / wakeable), by
          identity. Every such object is written this way; an `Obj` whose
          `then` is a function does not stand for one. */
    | Thenable(tid: nat)

  /** What `throw` raises in the source. */
  datatype JsError =
    | TypeError(msg: string)
    | Thrown(reason: Value)
    | Error(msg: string)

  /** JavaScript truthiness (`!!v`). */
  predicate Truthy(v: Value) {
    match v
    case Undefined => false
    case Null => false
    case Bool(b) => b
    case Num(n) => n != 0
    case Str(s) => s != ""
    case _ => true
  }

  /** `typeof v === 'function'`. */
  predicate IsFunction(v: Value) {
    v.Fun?
  }

  /** `typeof v === 'string' || typeof v === 'number'`. */
  predicate IsText(v: Value) {
    v.Str? || v.Num?
  }

  /** `typeof v === 'object' && v !== null`. */
  predicate IsObject(v: Value) {
    v.Arr? || v.Obj? || v.Elem? || v.ContextObj? || v.ProviderObj? || v.Thenable?
  }

  /** A primitive: `null`, `undefined`, a boolean, a number, a string or a
      symbol. Module code is strict, so writing a property of one throws. */
  predicate IsPrimitive(v: Value) {
    v.Undefined? || v.Null? || v.Bool? || v.Num? || v.Str? || v.Symbol?
  }

  /** `v[name]`: reading a property of `null` or `undefined` throws. */
  function GetProp(v: Value, name: string): (r: Result<Value, JsError>)
    ensures r.Failure? <==> v == Null || v == Undefined
  {
    match v
    case Undefined => Failure(TypeError("Cannot read properties of undefined"))
    case Null => Failure(TypeError("Cannot read properties of null"))
    case Obj(fields) => Success(if name in fields then fields[name] else Undefined)
    case Elem(typeOf, ty, key, ref, props) =>
      Success(
        if name == "$$typeof" then Symbol(typeOf)
        else if name == "type" then ty
        else if name == "key" then key
        else if name == "ref" then ref
        else if name == "props" then props
        else Undefined)
    case ProviderObj(cid) =>
      Success(
        if name == "$$typeof" then Symbol(ProviderSymbol)
        else if name == "_context" then ContextObj(cid)
        else Undefined)
    case ContextObj(cid) =>
      Success(
        if name == "$$typeof" then Symbol(ContextSymbol)
        else if name == "Provider" then ProviderObj(cid)
        else Undefined)
    case _ => Success(Undefined)
  }

  /** `v.name` for a value known not to be null or undefined. */
  function Prop(v: Value, name: string): Value
    requires v != Null && v != Undefined
  {
    GetProp(v, name).value
  }

  function DigitChar(d: nat): char
    requires d < 10
  {
    "0123456789"[d]
  }

  function NatToString(n: nat): string
    decreases n
  {
    if n < 10 then [DigitChar(n)] else NatToString(n / 10) + [DigitChar(n % 10)]
  }

  /** Decimal text of an integer, as `String(n)` prints it. */
  function IntToString(i: int): string {
    if i < 0 then "-" + NatToString(-i) else NatToString(i)
  }

  /** The string `'' + v` produces. A symbol cannot be converted and throws;
      a function converts to its source text, which is not modelled and is
      represented by a fixed placeholder. */
  function ToStr(v: Value): Result<string, JsError>
    decreases v, 1
  {
    match v
    case Undefined => Success("undefined")
    case Null => Success("null")
    case Bool(b) => Success(if b then "true" else "false")
    case Num(n) => Success(IntToString(n))
    case Str(s) => Success(s)
    case Symbol(_) => Failure(TypeError("Cannot convert a Symbol value to a string"))
    case Fun(_) => Success("function")
    case Arr(items) => JoinItems(items, v)
    case _ => Success("[object Object]")
  }

  /** `items.join(',')`, where null and undefined items print as ''. */
  function JoinItems(items: seq<Value>, whole: Value): Result<string, JsError>
    requires forall i :: 0 <= i < |items| ==> items[i] < whole
    decreases whole, 0, |items|
  {
    if items == [] then Success("")
    else
      var head :- if items[0] == Null || items[0] == Undefined then Success("") else ToStr(items[0]);
      if |items| == 1 then Success(head)
      else
        var tail :- JoinItems(items[1..], whole);
        Success(head + "," + tail)
  }
}
