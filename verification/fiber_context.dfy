/** The context value stack (packages/react-reconciler/src/fiberContext.ts).

    `pushContextValue` saves a context's current value on one stack shared
    by all contexts and installs the new value; `popContextValue` sets a
    context's current value to whatever is on top. The stack holds the
    previous values only: the current ones are in the contexts. */
module FiberContext {
  import opened JsValues
  import opened ReactContext

  datatype ContextStack = ContextStack(contexts: Contexts, stack: seq<Value>)

  /** `pushContextValue(context, newValue)`. */
  function PushContextValue(s: ContextStack, cid: nat, newValue: Value): (r: ContextStack)
    ensures r.stack == s.stack + [CurrentValue(s.contexts, cid)]
    ensures CurrentValue(r.contexts, cid) == newValue
    ensures forall d :: d != cid ==> CurrentValue(r.contexts, d) == CurrentValue(s.contexts, d)
  {
    ContextStack(SetCurrentValue(s.contexts, cid, newValue), s.stack + [CurrentValue(s.contexts, cid)])
  }

  /** `popContextValue(context)`: `Array.prototype.pop` of an empty stack
      gives `undefined`, which then becomes the current value. */
  function PopContextValue(s: ContextStack, cid: nat): (r: ContextStack)
    ensures |r.stack| == if s.stack == [] then 0 else |s.stack| - 1
    ensures r.stack == if s.stack == [] then [] else s.stack[..|s.stack| - 1]
    ensures CurrentValue(r.contexts, cid) == if s.stack == [] then Undefined else s.stack[|s.stack| - 1]
    ensures forall d :: d != cid ==> CurrentValue(r.contexts, d) == CurrentValue(s.contexts, d)
  {
    if s.stack == [] then ContextStack(SetCurrentValue(s.contexts, cid, Undefined), [])
    else ContextStack(SetCurrentValue(s.contexts, cid, s.stack[|s.stack| - 1]), s.stack[..|s.stack| - 1])
  }

  /** A push and then a pop of the same context give back the state before
      the push, for a context made by `createContext`. */
  lemma PushThenPop(s: ContextStack, cid: nat, v: Value)
    requires cid in s.contexts.current
    ensures PopContextValue(PushContextValue(s, cid, v), cid) == s
  {
    var p := PushContextValue(s, cid, v);
    assert p.stack[..|p.stack| - 1] == s.stack;
    assert p.contexts.current[cid := s.contexts.current[cid]] == s.contexts.current;
  }

  /** Pushes `ps` in order, each a context and its new value. */
  function PushAll(s: ContextStack, ps: seq<(nat, Value)>): (r: ContextStack)
    ensures |r.stack| == |s.stack| + |ps|
    decreases |ps|
  {
    if ps == [] then s else PushContextValue(PushAll(s, ps[..|ps| - 1]), ps[|ps| - 1].0, ps[|ps| - 1].1)
  }

  /** Pops the contexts of `ps` in the reverse order: the nesting of
      providers in the tree. */
  function PopAll(s: ContextStack, ps: seq<(nat, Value)>): ContextStack
    decreases |ps|
  {
    if ps == [] then s else PopAll(PopContextValue(s, ps[|ps| - 1].0), ps[..|ps| - 1])
  }

  /** Pushing keeps the contexts already in the store. */
  lemma {:induction false} PushAllKeepsContexts(s: ContextStack, ps: seq<(nat, Value)>, cid: nat)
    requires cid in s.contexts.current
    ensures cid in PushAll(s, ps).contexts.current
    decreases |ps|
  {
    if ps != [] {
      PushAllKeepsContexts(s, ps[..|ps| - 1], cid);
    }
  }

  /** Properly nested pushes and pops, over any contexts, restore every
      context's value and the stack. */
  lemma {:induction false} NestedPushPopRestores(s: ContextStack, ps: seq<(nat, Value)>)
    requires forall i :: 0 <= i < |ps| ==> ps[i].0 in s.contexts.current
    ensures PopAll(PushAll(s, ps), ps) == s
    decreases |ps|
  {
    if ps != [] {
      var init := ps[..|ps| - 1];
      var (cid, v) := ps[|ps| - 1];
      PushAllKeepsContexts(s, init, cid);
      PushThenPop(PushAll(s, init), cid, v);
      NestedPushPopRestores(s, init);
    }
  }
}
