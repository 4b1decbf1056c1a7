/** `unwindWork(wip)` (packages/react-reconciler/src/unwindWork.ts): the
    step that climbs back out of a fiber after something below it threw.
    A Suspense fiber pops the Suspense stack and, the first time it is
    asked to capture, turns `ShouldCapture` into `DidCapture` and is
    returned so that rendering restarts there; a context provider pops its
    context value. */
module UnwindWork {
  import opened Wrappers
  import opened JsValues
  import opened FiberFlags
  import opened Fibers
  import opened ReactContext
  import opened FiberContext
  import opened SuspenseStack

  /** The two stacks the unwind pops. */
  datatype UnwindState = UnwindState(suspense: seq<Fiber>, contexts: ContextStack)

  /** `(flags & ~ShouldCapture) | DidCapture`. */
  function Captured(flags: Flags): Flags {
    (flags & !ShouldCapture) | DidCapture
  }

  /** Whether a Suspense fiber captures: `ShouldCapture` set and
      `DidCapture` not yet. */
  predicate Captures(flags: Flags) {
    HasAny(flags, ShouldCapture) && !HasAny(flags, DidCapture)
  }

  /** `unwindWork(wip)`: the fiber returned (`None` for `null`), the fiber
      `wip` afterwards, and the stacks afterwards. A provider reads
      `wip.type._context`: reading it off a `null` type throws, and so does
      `popContextValue` when it is a primitive, since module code is strict
      and writing `_currentValue` to `null`, `undefined`, a boolean, number,
      string or symbol is a TypeError. A `_context` that is some other
      object receives the popped value outside the model; the stack is
      popped all the same. */
  function UnwindWork(wip: Fiber, s: UnwindState): (r: Result<(Option<Fiber>, Fiber, UnwindState), JsError>)
    ensures wip.tag == SuspenseComponent ==>
              r.Success? && r.value.2 == s.(suspense := PopSuspenseFiber(s.suspense).0)
    ensures wip.tag == SuspenseComponent && Captures(wip.flags) ==>
              r.value.0 == Some(r.value.1) && r.value.1 == wip.(flags := Captured(wip.flags))
    ensures wip.tag == SuspenseComponent && !Captures(wip.flags) ==>
              r.value.0.None? && r.value.1 == wip
    ensures wip.tag == ContextProvider ==>
              (r.Failure? <==> GetProp(wip.typ, "_context").Failure? || IsPrimitive(GetProp(wip.typ, "_context").value))
    ensures wip.tag == ContextProvider && r.Success? ==>
              r.value.0.None? && r.value.1 == wip && r.value.2.suspense == s.suspense
              && r.value.2.contexts.stack == PopContextValue(s.contexts, 0).stack
    ensures wip.tag == ContextProvider && wip.typ.ProviderObj? ==>
              r == Success((None, wip, s.(contexts := PopContextValue(s.contexts, wip.typ.cid))))
    ensures wip.tag != SuspenseComponent && wip.tag != ContextProvider ==> r == Success((None, wip, s))
  {
    match wip.tag
    case SuspenseComponent =>
      var s1 := s.(suspense := PopSuspenseFiber(s.suspense).0);
      if Captures(wip.flags) then
        var w := wip.(flags := Captured(wip.flags));
        Success((Some(w), w, s1))
      else Success((None, wip, s1))
    case ContextProvider =>
      var context :- GetProp(wip.typ, "_context");
      if context.ContextObj? then Success((None, wip, s.(contexts := PopContextValue(s.contexts, context.cid))))
      else if context == Null || context == Undefined then
        Failure(TypeError("Cannot set properties of " + (if context == Null then "null" else "undefined") + " (setting '_currentValue')"))
      else if IsPrimitive(context) then Failure(TypeError("Cannot create property '_currentValue' on a primitive"))
      else Success((None, wip, s.(contexts := s.contexts.(stack := PopContextValue(s.contexts, 0).stack))))
    case _ => Success((None, wip, s))
  }

  /** The capture rewrite takes `ShouldCapture` off, puts `DidCapture` on,
      and keeps every other bit. */
  lemma CapturedDropsShouldCapture(flags: Flags)
    ensures !HasAny(Captured(flags), ShouldCapture)
  {
  }

  lemma CapturedSetsDidCapture(flags: Flags)
    ensures HasAny(Captured(flags), DidCapture)
  {
  }

  lemma CapturedKeepsOthers(flags: Flags)
    ensures Captured(flags) & !(ShouldCapture | DidCapture) == flags & !(ShouldCapture | DidCapture)
  {
  }

  /** A Suspense fiber captures once: unwinding the fiber it returned again
      returns nothing and leaves its flags alone. */
  lemma CapturesOnce(wip: Fiber, s: UnwindState, s2: UnwindState)
    requires wip.tag == SuspenseComponent && Captures(wip.flags)
    ensures var r := UnwindWork(wip, s);
            var r2 := UnwindWork(r.value.1, s2);
            r2.Success? && r2.value.0.None? && r2.value.1 == r.value.1
  {
    CapturedSetsDidCapture(wip.flags);
  }

  /** Every Suspense unwind pops the Suspense stack exactly once. */
  lemma SuspensePopsOnce(wip: Fiber, s: UnwindState)
    requires wip.tag == SuspenseComponent && s.suspense != []
    ensures var r := UnwindWork(wip, s);
            r.value.2.suspense + [s.suspense[|s.suspense| - 1]] == s.suspense
            && r.value.2.contexts == s.contexts
  {
  }

  /** A provider whose `_context` is a number throws on the way out, as
      the write of `_currentValue` does in strict code; one whose
      `_context` is a context object pops that context. */
  lemma PrimitiveContextThrows(s: UnwindState, cid: nat)
    ensures var wip := NewFiber(ContextProvider, Null, Null).(typ := Obj(map["_context" := Num(1)]));
            UnwindWork(wip, s).Failure?
    ensures var wip := NewFiber(ContextProvider, Null, Null).(typ := Obj(map["_context" := ContextObj(cid)]));
            UnwindWork(wip, s).Success?
  {
  }
}
