/** Element construction (packages/react/src/jsx.ts): `jsx(type, config,
    ...children)` and `jsxDEV`, which is the same function.

    `for (const prop in config)` enumerates the config's own properties
    (a plain object has no inherited enumerable ones); `null` and
    `undefined` configs enumerate nothing. The `__mark` field of the element
    record is not modelled. */
module Jsx {
  import opened Wrappers
  import opened JsValues

  /** The properties `for ... in` visits. */
  function ConfigProps(config: Value): map<string, Value> {
    if config.Obj? then config.fields else map[]
  }

  /** `key`: `'' + config.key` when it is defined, else `null`. */
  function KeyOf(fields: map<string, Value>): (r: Result<Value, JsError>)
    ensures !("key" in fields && fields["key"] != Undefined) ==> r == Success(Null)
    ensures "key" in fields && fields["key"] != Undefined ==>
              (r.Failure? <==> ToStr(fields["key"]).Failure?)
              && (r.Success? ==> r.value == Str(ToStr(fields["key"]).value))
  {
    if "key" in fields && fields["key"] != Undefined then
      var s :- ToStr(fields["key"]);
      Success(Str(s))
    else Success(Null)
  }

  /** `ref`: `config.ref` when it is defined, else `null`. */
  function RefOf(fields: map<string, Value>): Value {
    if "ref" in fields && fields["ref"] != Undefined then fields["ref"] else Null
  }

  /** The props: every property but `key` and `ref`, then `children` set
      to the one extra argument, or to all of them as an array. */
  function PropsOf(fields: map<string, Value>, children: seq<Value>): (p: map<string, Value>)
    ensures "key" !in p && "ref" !in p
    ensures forall k :: k in fields && k != "key" && k != "ref" && (k != "children" || children == []) ==>
              k in p && p[k] == fields[k]
    ensures forall k :: k in p ==> (k in fields && k != "key" && k != "ref") || (k == "children" && children != [])
    ensures |children| == 1 ==> "children" in p && p["children"] == children[0]
    ensures |children| > 1 ==> "children" in p && p["children"] == Arr(children)
  {
    var own := fields - {"key", "ref"};
    if |children| == 0 then own
    else if |children| == 1 then own["children" := children[0]]
    else own["children" := Arr(children)]
  }

  /** `jsx(type, config, ...maybeChildren)`. Turning a symbol key into a
      string throws. */
  function JsxElement(typ: Value, config: Value, children: seq<Value>): (r: Result<Value, JsError>)
    ensures r.Failure? <==> KeyOf(ConfigProps(config)).Failure?
    ensures r.Success? ==>
              r.value == Elem(ElementSymbol, typ, KeyOf(ConfigProps(config)).value, RefOf(ConfigProps(config)),
                              Obj(PropsOf(ConfigProps(config), children)))
  {
    var fields := ConfigProps(config);
    var key :- KeyOf(fields);
    Success(Elem(ElementSymbol, typ, key, RefOf(fields), Obj(PropsOf(fields, children))))
  }

  /** `jsxDEV` is `jsx`. */
  function JsxDEV(typ: Value, config: Value, children: seq<Value>): (r: Result<Value, JsError>)
    ensures r == JsxElement(typ, config, children)
  {
    JsxElement(typ, config, children)
  }

  /** Reading an element back: `$$typeof`, `type`, `key`, `ref` and every
      prop come out as given; `key` and `ref` are not props. */
  lemma ElementReadsBack(typ: Value, fields: map<string, Value>, children: seq<Value>, k: string)
    requires forall name :: name in fields ==> fields[name] != Undefined
    requires "key" in fields ==> fields["key"].Str?
    ensures var r := JsxElement(typ, Obj(fields), children);
            && r.Success?
            && GetProp(r.value, "$$typeof") == Success(Symbol(ElementSymbol))
            && GetProp(r.value, "type") == Success(typ)
            && GetProp(r.value, "key") == Success(if "key" in fields then fields["key"] else Null)
            && GetProp(r.value, "ref") == Success(if "ref" in fields then fields["ref"] else Null)
            && var props := GetProp(r.value, "props").value;
               && GetProp(props, "key") == Success(Undefined)
               && GetProp(props, "ref") == Success(Undefined)
               && (k in fields && k != "key" && k != "ref" && k != "children" ==> GetProp(props, k) == Success(fields[k]))
  {
  }

  /** `children`: one extra argument as is, several as an ordered array,
      none leaves `config.children`. */
  lemma ChildrenReadBack(typ: Value, config: Value, children: seq<Value>)
    requires !("key" in ConfigProps(config) && ConfigProps(config)["key"] != Undefined)
    ensures var r := JsxElement(typ, config, children);
            && r.Success?
            && var c := GetProp(r.value.props, "children").value;
               && (|children| == 1 ==> c == children[0])
               && (|children| > 1 ==> c == Arr(children))
               && (children == [] ==> c == if "children" in ConfigProps(config) then ConfigProps(config)["children"] else Undefined)
  {
  }
}
