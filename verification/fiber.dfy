/** The fiber record (packages/react-reconciler/src/fiber.ts) and the fiber
    root.

    A fiber's `child`, `sibling` and `return` pointers are not fields here:
    fibers live in an `FTree`, whose `kids` are the child chain in sibling
    order, so `child` is `kids[0]`, `sibling` is the next entry of the
    parent's `kids` and `return` is the enclosing node.

    fiber.ts declares only the fields up to `flags`. `subtreeFlags`,
    `deletions`, `updateQueue`, `memoizedState`, the fiber root and
    `createWorkInProgress` are used by the other files; they are introduced
    here with the meaning those files give them. */
module Fibers {
  import opened Wrappers
  import opened JsValues
  import opened FiberFlags
  import opened FiberLanes
  import opened UpdateQueues

  /** The kinds of fiber (packages/react-reconciler/src/workTags.ts, plus the
      Suspense and Offscreen tags other files use). */
  datatype WorkTag =
    | FunctionComponent
    | HostRoot
    | HostComponent
    | HostText
    | Fragment
    | ContextProvider
    | SuspenseComponent
    | OffscreenComponent

  /** `stateNode`: nothing, a host instance or text instance (by id), or, for
      the host root, the fiber root of container `rootId`. */
  datatype StateNode =
    | NoStateNode
    | HostInstance(id: nat)
    | RootNode(rootId: nat)

  /** An effect of `useEffect` (its `next` pointer is the ring order). */
  datatype Effect = Effect(tag: bv32, create: Value, destroy: Value, deps: Value)

  /** A circular effect list: `effects[i].next` is `effects[(i + 1) % n]`,
      and `lastEffect` is `effects[last]`. */
  datatype EffectRing = EffectRing(effects: seq<Effect>, last: nat)

  predicate ValidRing(r: EffectRing) {
    |r.effects| > 0 && r.last < |r.effects|
  }

  /** `updateQueue`: the host root's update queue, a function component's
      effect list, or none. */
  datatype FiberQueue =
    | NoQueue
    | RootQueue(queue: UpdateQueue)
    | EffectQueue(lastEffect: Option<EffectRing>)

  datatype Fiber = Fiber(
    tag: WorkTag,
    key: Value,
    typ: Value,
    stateNode: StateNode,
    ref: Value,
    index: nat,
    pendingProps: Value,
    memoizedProps: Value,
    memoizedState: Value,
    updateQueue: FiberQueue,
    alternate: Option<FTree>,
    flags: Flags,
    subtreeFlags: Flags,
    deletions: Option<seq<FTree>>)

  /** A fiber and its child chain. */
  datatype FTree = Node(fiber: Fiber, kids: seq<FTree>)

  /** `new FiberNode(tag, pendingProps, key)`. The new fiber is not linked
      to any other: it is the root of a one-node tree. */
  function NewFiber(tag: WorkTag, pendingProps: Value, key: Value): (f: Fiber)
    ensures f.tag == tag && f.key == key && f.pendingProps == pendingProps
    ensures f.stateNode == NoStateNode && f.typ == Null && f.ref == Null
    ensures f.index == 0
    ensures f.memoizedProps == Null && f.alternate.None? && f.flags == NoFlags
    ensures f.subtreeFlags == NoFlags && f.deletions.None?
  {
    Fiber(tag, key, Null, NoStateNode, Null, 0, pendingProps, Null, Null, NoQueue, None, NoFlags, NoFlags, None)
  }

  /** `createWorkInProgress(current, pendingProps)`: a copy of `current` that
      points back to it through `alternate`, takes the new props and starts
      with no effects. The copy's children are `current`'s (`wip.child =
      current.child`). */
  function CreateWorkInProgress(current: FTree, pendingProps: Value): (w: Fiber)
    ensures w.alternate == Some(current)
    ensures w.pendingProps == pendingProps
    ensures w.tag == current.fiber.tag && w.key == current.fiber.key && w.typ == current.fiber.typ
    ensures w.stateNode == current.fiber.stateNode && w.ref == current.fiber.ref && w.index == current.fiber.index
    ensures w.memoizedProps == current.fiber.memoizedProps && w.memoizedState == current.fiber.memoizedState
    ensures w.updateQueue == current.fiber.updateQueue
    ensures w.flags == NoFlags && w.subtreeFlags == NoFlags && w.deletions.None?
  {
    current.fiber.(alternate := Some(current), pendingProps := pendingProps,
                   flags := NoFlags, subtreeFlags := NoFlags, deletions := None)
  }

  /** The effect lists a commit queued for the passive phase. */
  datatype PendingPassiveEffects = PendingPassiveEffects(unmount: seq<EffectRing>, update: seq<EffectRing>)

  /** The fiber root of a container. `pingCache` maps a wakeable (by id) to
      the lanes already listening to it. */
  datatype FiberRootNode = FiberRootNode(
    container: nat,
    current: FTree,
    finishedWork: Option<FTree>,
    pendingLanes: Lanes,
    pendingPassiveEffects: PendingPassiveEffects,
    pingCache: Option<map<nat, set<Lanes>>>)

  /** Host fibers: those with a host node of their own. */
  predicate IsHost(f: Fiber) {
    f.tag == HostComponent || f.tag == HostText
  }

  /** Host parents: fibers whose host node can contain others. */
  predicate IsHostParent(f: Fiber) {
    f.tag == HostComponent || f.tag == HostRoot
  }
}
