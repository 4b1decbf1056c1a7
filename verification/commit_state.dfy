/** What the commit phase changes besides fibers
    (packages/react-reconciler/src/commitWork.ts): the host nodes, the
    effect lists queued on the fiber root for the passive phase, and the
    calls made into code outside the reconciler (refs, and the
    `hideInstance` family, which the noop host does not define). */
module CommitLog {
  import opened Wrappers
  import opened JsValues
  import opened FiberFlags
  import opened Fibers
  import opened NoopHost

  /** A call out of the reconciler: setting a ref (calling a function ref
      or assigning `ref.current`), or hiding and showing host nodes. */
  datatype Call =
    | RefAttach(ref: Value, instance: StateNode)
    | RefDetach(ref: Value)
    | HideInstance(node: StateNode)
    | UnhideInstance(node: StateNode)
    | HideTextInstance(node: StateNode)
    | UnhideTextInstance(node: StateNode, text: Value)

  datatype CommitState = CommitState(host: Host, passive: PendingPassiveEffects, calls: seq<Call>)

  // ---------------------------------------------------------------- refs

  /** `unbindRef(fiber)` for the fiber's `ref`: nothing for `null`; a
      function is called with `null` and an object gets `current = null`;
      writing `current` to any other primitive (`undefined`, a boolean,
      number, string or symbol) throws, since module code is strict. */
  function UnbindRef(ref: Value, st: CommitState): (r: Result<CommitState, JsError>)
    ensures ref == Null ==> r == Success(st)
    ensures r.Failure? <==> ref != Null && IsPrimitive(ref)
    ensures ref != Null && r.Success? ==> r.value == st.(calls := st.calls + [RefDetach(ref)])
  {
    if ref == Null then Success(st)
    else if ref == Undefined then Failure(TypeError("Cannot set properties of undefined (setting 'current')"))
    else if IsPrimitive(ref) then Failure(TypeError("Cannot create property 'current' on a primitive"))
    else Success(st.(calls := st.calls + [RefDetach(ref)]))
  }

  /** `bindRef(fiber)`: the same, handing over the fiber's `stateNode`. */
  function BindRef(f: Fiber, st: CommitState): (r: Result<CommitState, JsError>)
    ensures f.ref == Null ==> r == Success(st)
    ensures r.Failure? <==> f.ref != Null && IsPrimitive(f.ref)
    ensures f.ref != Null && r.Success? ==> r.value == st.(calls := st.calls + [RefAttach(f.ref, f.stateNode)])
  {
    if f.ref == Null then Success(st)
    else if f.ref == Undefined then Failure(TypeError("Cannot set properties of undefined (setting 'current')"))
    else if IsPrimitive(f.ref) then Failure(TypeError("Cannot create property 'current' on a primitive"))
    else Success(st.(calls := st.calls + [RefAttach(f.ref, f.stateNode)]))
  }

  /** A ref that is a number throws on both writes; a ref object and a
      function ref take them. */
  lemma PrimitiveRefThrows(st: CommitState, f: Fiber, fid: nat)
    ensures UnbindRef(Num(1), st).Failure? && BindRef(f.(ref := Str("r")), st).Failure?
    ensures UnbindRef(Obj(map["current" := Null]), st).Success? && UnbindRef(Fun(fid), st).Success?
    ensures BindRef(f.(ref := Obj(map["current" := Null])), st).Success? && BindRef(f.(ref := Fun(fid)), st).Success?
  {
  }

  // ---------------------------------------------------------------- commitPassiveEffect

  /** The two lists of `root.pendingPassiveEffects`. */
  datatype PassiveKind = UnmountList | UpdateList

  /** Whether `commitPassiveEffect(fiber, root, type)` queues the fiber's
      effect list: only a function component, only with `PassiveEffect`
      for 'update', and only when there is a last effect. */
  predicate Queues(f: Fiber, kind: PassiveKind) {
    && f.tag == FunctionComponent
    && (kind == UpdateList ==> HasAny(f.flags, PassiveEffect))
    && f.updateQueue.EffectQueue? && f.updateQueue.lastEffect.Some?
  }

  /** `commitPassiveEffect(fiber, root, type)`: pushes the fiber's
      `lastEffect` (its whole circular list) onto the list of that type. */
  function CommitPassiveEffect(f: Fiber, kind: PassiveKind, p: PendingPassiveEffects): (r: PendingPassiveEffects)
    ensures !Queues(f, kind) ==> r == p
    ensures Queues(f, kind) && kind == UnmountList ==> r == p.(unmount := p.unmount + [f.updateQueue.lastEffect.value])
    ensures Queues(f, kind) && kind == UpdateList ==> r == p.(update := p.update + [f.updateQueue.lastEffect.value])
  {
    if f.tag != FunctionComponent || (kind == UpdateList && !HasAny(f.flags, PassiveEffect)) then p
    else match f.updateQueue
      case EffectQueue(Some(ring)) =>
        if kind == UnmountList then p.(unmount := p.unmount + [ring]) else p.(update := p.update + [ring])
      case _ => p
  }
}
