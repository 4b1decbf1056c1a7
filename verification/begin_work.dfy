/** The "begin" half of rendering a fiber
    (packages/react-reconciler/src/beginWork.ts): pick the children a fiber
    should have and reconcile them against the current ones.

    A function component's children come from calling it under hooks
    (`renderWithHooks`), which is not part of this model: they are the
    parameter `rendered`. The current children are the `kids` of
    `wip.alternate`. */
module BeginWork {
  import opened Wrappers
  import opened JsValues
  import opened FiberFlags
  import opened UpdateQueues
  import opened Fibers
  import opened ChildFibers

  /** The fiber after `beginWork` and its new child chain; `beginWork`
      returns `wip.child`, the first fiber of the chain. */
  datatype Begun = Begun(wip: Fiber, children: seq<Fiber>)

  /** What `beginWork` returns. */
  function NextUnit(b: Begun): Option<Fiber> {
    if b.children == [] then None else Some(b.children[0])
  }

  /** The ref of `wip` is new on mount, or differs from the current one. */
  predicate RefChanged(current: Option<FTree>, wip: Fiber) {
    (current.None? && wip.ref != Null) || (current.Some? && current.value.fiber.ref != wip.ref)
  }

  /** `markRef(current, workInProgress)`: adds `Ref` when the ref is new or
      changed and touches nothing else. */
  function MarkRef(current: Option<FTree>, wip: Fiber): (r: Fiber)
    ensures HasAny(r.flags, Ref) <==> HasAny(wip.flags, Ref) || RefChanged(current, wip)
    ensures !RefChanged(current, wip) ==> r == wip
    ensures r == wip.(flags := r.flags)
    ensures !HasAny(r.flags ^ wip.flags, !Ref)
  {
    if RefChanged(current, wip) then wip.(flags := wip.flags | Ref) else wip
  }

  lemma ChildDeletionKeepsRef(f: Flags)
    ensures HasAny(f | ChildDeletion, Ref) <==> HasAny(f, Ref)
  {
  }

  /** `current.child` and its siblings, or none on mount. */
  function CurrentChildren(wip: Fiber): seq<FTree> {
    if wip.alternate.Some? then wip.alternate.value.kids else []
  }

  /** `reconcileChildren(wip, children)`: the update reconciler against the
      current children when `wip` has an alternate, the mount reconciler
      against none otherwise. */
  function ReconcileChildren(wip: Fiber, children: Value): (r: Begun)
    ensures ChildrenFit(children, r.children)
    ensures IsElement(children) ==> r.children[0].alternate == ElementReuse(CurrentChildren(wip), children)
    ensures OnlyDeletions(wip, r.wip)
    ensures HasAny(r.wip.flags, Ref) <==> HasAny(wip.flags, Ref)
    ensures wip.alternate.None? ==> r.wip == wip && forall j :: 0 <= j < |r.children| ==> r.children[j].flags == NoFlags
  {
    var rc := ReconcileChildFibers(wip.alternate.Some?, wip, CurrentChildren(wip), children);
    ChildDeletionKeepsRef(wip.flags);
    if wip.alternate.None? then
      MountLeavesNoMarks(wip, [], children);
      Begun(rc.returnFiber, rc.children)
    else Begun(rc.returnFiber, rc.children)
  }

  /** The tags `beginWork` handles with children of their own. */
  predicate HasChildrenToBegin(tag: WorkTag) {
    tag == HostRoot || tag == HostComponent || tag == FunctionComponent || tag == Fragment || tag == ContextProvider
  }

  /** `beginWork(wip, renderLane)`. Reading `pendingProps.children` of null
      props, or the update queue of a root without one, throws. */
  function BeginWork(wip: Fiber, rendered: Value, call: (Value, Value) -> Value): (r: Result<Begun, JsError>)
    ensures r.Failure? <==>
              (wip.tag == HostRoot && !wip.updateQueue.RootQueue?)
              || ((wip.tag == HostComponent || wip.tag == ContextProvider) && (wip.pendingProps == Null || wip.pendingProps == Undefined))
    ensures !HasChildrenToBegin(wip.tag) ==> r == Success(Begun(wip, []))
    ensures r.Success? && wip.tag == HostRoot ==>
              var q := wip.updateQueue.queue;
              && r.value.wip.updateQueue == RootQueue(q.(pending := None))
              && r.value.wip.memoizedState == ProcessUpdateQueue(wip.memoizedState, q.pending, call)
              && ChildrenFit(r.value.wip.memoizedState, r.value.children)
    ensures r.Success? && wip.tag != HostRoot ==>
              r.value.wip.memoizedState == wip.memoizedState && r.value.wip.updateQueue == wip.updateQueue
    ensures r.Success? && (wip.tag == HostComponent || wip.tag == ContextProvider) ==>
              ChildrenFit(Prop(wip.pendingProps, "children"), r.value.children)
    ensures r.Success? && wip.tag == Fragment ==> ChildrenFit(wip.pendingProps, r.value.children)
    ensures r.Success? && wip.tag == FunctionComponent ==> ChildrenFit(rendered, r.value.children)
  {
    match wip.tag
    case HostRoot =>
      if !wip.updateQueue.RootQueue? then Failure(TypeError("Cannot read properties of null (reading 'shared')"))
      else
        var q := wip.updateQueue.queue;
        var state := ProcessUpdateQueue(wip.memoizedState, q.pending, call);
        Success(ReconcileChildren(wip.(updateQueue := RootQueue(q.(pending := None)), memoizedState := state), state))
    case HostComponent =>
      var children :- GetProp(wip.pendingProps, "children");
      Success(ReconcileChildren(MarkRef(wip.alternate, wip), children))
    case HostText => Success(Begun(wip, []))
    case FunctionComponent => Success(ReconcileChildren(wip, rendered))
    case Fragment => Success(ReconcileChildren(wip, wip.pendingProps))
    case ContextProvider =>
      var children :- GetProp(wip.pendingProps, "children");
      Success(ReconcileChildren(wip, children))
    case _ => Success(Begun(wip, []))
  }

  /** `Ref` is marked only on a host component whose ref changed, and on
      mount the new children carry no flags. */
  lemma BeginWorkMarks(wip: Fiber, rendered: Value, call: (Value, Value) -> Value)
    requires BeginWork(wip, rendered, call).Success?
    ensures var b := BeginWork(wip, rendered, call).value;
            && (wip.tag == HostComponent ==> (HasAny(b.wip.flags, Ref) <==> HasAny(wip.flags, Ref) || RefChanged(wip.alternate, wip)))
            && (wip.tag != HostComponent ==> (HasAny(b.wip.flags, Ref) <==> HasAny(wip.flags, Ref)))
            && (wip.alternate.None? ==> forall j :: 0 <= j < |b.children| ==> b.children[j].flags == NoFlags)
  {
    match wip.tag
    case HostRoot =>
    case HostComponent =>
    case FunctionComponent =>
    case Fragment =>
    case ContextProvider =>
    case _ =>
  }

  /** `beginWork` consumes the root's pending update: beginning the root
      again computes the same state and the same children. */
  lemma BeginRootTwiceIsStable(wip: Fiber, rendered: Value, call: (Value, Value) -> Value)
    requires wip.tag == HostRoot && wip.updateQueue.RootQueue?
    ensures var first := BeginWork(wip, rendered, call).value.wip;
            var again := BeginWork(first.(flags := wip.flags, deletions := wip.deletions), rendered, call);
            again.Success?
            && again.value.wip.memoizedState == first.memoizedState
            && again.value.wip.updateQueue == first.updateQueue
  {
  }

  /** On mount the children carry no flags and the fiber gains at most
      `Ref`; on update it also gains deletions and `ChildDeletion`. Nothing
      else about the fiber changes except a root's state and queue. */
  lemma BeginWorkChangesOnlyEffects(wip: Fiber, rendered: Value, call: (Value, Value) -> Value)
    requires BeginWork(wip, rendered, call).Success?
    ensures var b := BeginWork(wip, rendered, call).value;
            b.wip == wip.(flags := b.wip.flags, deletions := b.wip.deletions,
                          memoizedState := b.wip.memoizedState, updateQueue := b.wip.updateQueue)
    ensures var b := BeginWork(wip, rendered, call).value;
            wip.alternate.None? && wip.tag != HostComponent && wip.tag != HostRoot ==> b.wip == wip
  {
    match wip.tag
    case HostRoot =>
    case HostComponent =>
    case FunctionComponent =>
    case Fragment =>
    case ContextProvider =>
    case _ =>
  }
}
