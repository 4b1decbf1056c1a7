/** `createContext` (packages/react/src/context.ts).

    A context object is `ContextObj(cid)`; its `Provider` is
    `ProviderObj(cid)`, whose `_context` leads back to it (see
    `JsValues.GetProp`). The one mutable field of a context,
    `_currentValue`, lives in the store `Contexts`, keyed by `cid`. */
module ReactContext {
  import opened Wrappers
  import opened JsValues

  /** The next context id and the `_currentValue` of every context made. */
  datatype Contexts = Contexts(nextId: nat, current: map<nat, Value>)

  const NoContexts: Contexts := Contexts(0, map[])

  /** Every context in the store was handed out before. */
  predicate ValidContexts(cs: Contexts) {
    forall cid :: cid in cs.current ==> cid < cs.nextId
  }

  /** `context._currentValue`; a context the store does not hold reads as
      `undefined`. */
  function CurrentValue(cs: Contexts, cid: nat): Value {
    if cid in cs.current then cs.current[cid] else Undefined
  }

  /** `context._currentValue = v`. */
  function SetCurrentValue(cs: Contexts, cid: nat, v: Value): (r: Contexts)
    ensures CurrentValue(r, cid) == v && r.nextId == cs.nextId
    ensures forall d :: d != cid ==> CurrentValue(r, d) == CurrentValue(cs, d)
  {
    cs.(current := cs.current[cid := v])
  }

  /** `createContext(defaultValue)`: a fresh context whose current value
      is the default, tagged `REACT_CONTEXT_TYPE`, with a Provider tagged
      `REACT_PROVIDER_TYPE` that points back to it. */
  function CreateContext(defaultValue: Value, cs: Contexts): (r: (Value, Contexts))
    ensures r.0.ContextObj? && r.0.cid == cs.nextId && r.1.nextId == cs.nextId + 1
    ensures ValidContexts(cs) ==> ValidContexts(r.1) && r.0.cid !in cs.current
    ensures CurrentValue(r.1, r.0.cid) == defaultValue
    ensures forall d :: d != r.0.cid ==> CurrentValue(r.1, d) == CurrentValue(cs, d)
  {
    (ContextObj(cs.nextId), Contexts(cs.nextId + 1, cs.current[cs.nextId := defaultValue]))
  }

  /** The shape of what `createContext` returns: its `$$typeof`, a
      non-null `Provider` with its own `$$typeof`, and the Provider's
      `_context` being the context itself. */
  lemma CreateContextShape(defaultValue: Value, cs: Contexts)
    ensures var c := CreateContext(defaultValue, cs).0;
            && GetProp(c, "$$typeof") == Success(Symbol(ContextSymbol))
            && GetProp(c, "Provider").Success?
            && var p := GetProp(c, "Provider").value;
               && p != Null
               && GetProp(p, "$$typeof") == Success(Symbol(ProviderSymbol))
               && GetProp(p, "_context") == Success(c)
  {
  }

  /** Each call yields a context distinct from every earlier one. */
  lemma ContextsAreFresh(v1: Value, v2: Value, cs: Contexts)
    requires ValidContexts(cs)
    ensures var (c1, cs1) := CreateContext(v1, cs);
            var (c2, cs2) := CreateContext(v2, cs1);
            c1 != c2 && CurrentValue(cs2, c1.cid) == v1 && CurrentValue(cs2, c2.cid) == v2
  {
  }
}
