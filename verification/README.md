# oh-react core in Dafny

A model of the core of oh-react, a small React-style UI library: the
reconciler (lanes and flags, fibers, update queues, the child differ,
`beginWork`, `completeWork`, the render loop, the commit passes, unwinding,
the context and suspense stacks, thenable tracking, the ping cache and the
sync callback queue), its scheduler (priorities, tasks, the binary min-heap
and the time-sliced task loop), the noop host renderer with its JSX
snapshot, and the `jsx` and `createContext` entry points of the `react`
package.

How the model is laid out:

- One Dafny module per source file (`Wrappers` and `JsValues` are shared
  helpers; `TreeWalk` and `CommitLog` hold what several commit files share).
- JavaScript values are the datatype `JsValues.Value`. Numbers are
  integers. An object is a map from property names to values, so property
  order is not modelled. Functions, host nodes, thenables, contexts and
  providers carry an id, and are compared by it. Plain objects, arrays and
  elements carry none, so two of them with the same contents are equal.
  The one place this matters is a ref object, which `markRef` compares by
  identity (see "Left out"). Every object with a callable `then` is written
  `Thenable(tid)`. A plain object whose `then` is a function is not such a
  value.
- Lanes and flags are `bv32`, the bit pattern of the source's 32-bit
  bitwise operators.
- A fiber is a record. The `child`, `sibling` and `return` pointers are the
  inductive tree `Fibers.FTree`. A pointer walk (`node = node.child`,
  `node.sibling`, `node.return`) is a move of a zipper (`TreeWalk`): the
  focused subtree plus the path back to the root. Every loop that walks
  fibers is proved equal to a structural recursion (`TreeWalk.WalkIsVisit`),
  and the properties are proved about the recursion.
- Throwing is a `Result` failure (`JsValues.JsError`). Reading a property
  of `null` or `undefined` is such a failure. So is writing a property of
  any primitive (`JsValues.IsPrimitive`), since module code is strict. A
  crash in the source therefore shows up as a failure in the model.
- The clock, the scheduler's executors, the user's effect functions, update
  actions and what a function component renders are parameters.

Four things about how the code behaves shape the model:

- The executor loop of `Scheduler.loop` runs only once the time slice has
  ended, but packages/scheduler/src/Scheduler.ts:161 has already returned
  by then. So no executor is ever called (line 166, see Findings).
- `workLoop` (packages/react-reconciler/src/workLoop.ts:101-105) has no
  time-slice check, so rendering is never interrupted. The model has no
  check either.
- `commitRoot` (packages/react-reconciler/src/workLoop.ts:57-88) runs only
  the mutation pass. Refs are detached there, but the layout pass that
  attaches them (`commitLayoutEffects`) is never called.
  `CommitWork.LayoutOnFiber` models that pass on its own.
- The deletion walk (packages/react-reconciler/src/commitWork.ts:80-96)
  misses some of the topmost host nodes of the deleted subtree (see
  Findings).

Each defect under Findings is modelled twice: as written, and corrected.
The operations built on top of a defective one use its corrected half, so
they describe what the code evidently intends rather than what it does:
`ChildFibers.ReconcileChildFibers` composes the corrected single-element,
array and fallback halves, and `BeginWork.ReconcileChildren` and
`BeginWork.BeginWork` use it; `CommitWork.CommitPlacement`, `PlacementStep`,
`DeletionStep`, `VisibilityStep`, `MutationOnFiber`,
`CommitMutationEffects` and `WorkLoop.CommitRoot` use the corrected
placement, deletion and toggle walks (and `CommitRoot` passes the root
that `commitRoot` leaves out); `Scheduler.Wake`, `Scheduler.LoopAsWritten`
and `Scheduler.Work` pop with the corrected heap `pop`, and `Work` runs the
corrected loop. Each is listed under "Left out".

## Model

| member | source | states |
|---|---|---|
| FiberFlags.FlagBitsAreDistinct | packages/react-reconciler/src/fiberFlags.ts:3-10 | NoFlags is 0; Placement, Update, ChildDeletion and PassiveEffect, and the Ref, Visibility, ShouldCapture and DidCapture bits this model adds, are single bits and pairwise disjoint |
| FiberFlags.MaskMembership | packages/react-reconciler/src/fiberFlags.ts:14-16 | a flag word meets MutationMask iff it holds Placement, Update or ChildDeletion, and meets PassiveMask iff it holds PassiveEffect or ChildDeletion; ChildDeletion is in both masks, PassiveEffect only in PassiveMask, Placement and Update only in MutationMask |
| FiberLanes.MergeLanes | packages/react-reconciler/src/fiberLanes.ts:53-61 | merging no lanes gives NoLanes, and every argument is a subset of the merge |
| FiberLanes.MergeLanesIsLeast | packages/react-reconciler/src/fiberLanes.ts:53-61 | the merge is a subset of every lane set that contains all arguments: together with MergeLanes, it is their bitwise union |
| FiberLanes.MergeTwo | packages/react-reconciler/src/fiberLanes.ts:53-61 | merging two lane sets is their bitwise OR |
| FiberLanes.GetHighestPriorityLane | packages/react-reconciler/src/fiberLanes.ts:75-77 | the result is 0 exactly for 0; otherwise it is a single bit contained in the input with no lower bit of the input set (the lowest set bit) |
| FiberLanes.SubsetLaws | packages/react-reconciler/src/fiberLanes.ts:120-122 | isSubsetOfLanes is reflexive, NoLanes is a subset of every set, and a is a subset of b iff a has no bit outside b |
| FiberLanes.SubsetTransitive | packages/react-reconciler/src/fiberLanes.ts:120-122 | isSubsetOfLanes is transitive |
| FiberLanes.SubsetAntisymmetric | packages/react-reconciler/src/fiberLanes.ts:120-122 | two lane sets that are subsets of each other are equal |
| FiberLanes.MarkFiberFinished | packages/react-reconciler/src/fiberLanes.ts:84-89 | after finishing a lane, no bit of it is pending, every other pending bit is kept, and nothing new becomes pending |
| FiberLanes.LanesToSchedulerPriority | packages/react-reconciler/src/fiberLanes.ts:91-105 | the priority is decided by the lowest set lane: Immediate iff the sync bit is set, UserBlocking iff input-continuous is the lowest, Normal iff default is the lowest, Idle iff none of the three is set |
| FiberLanes.SchedulerPriorityToLane | packages/react-reconciler/src/fiberLanes.ts:107-118 | Immediate, UserBlocking and Normal map to the sync, input-continuous and default lanes (each iff), and every other priority maps to NoLane |
| FiberLanes.PriorityRoundTrip | packages/react-reconciler/src/fiberLanes.ts:91-118 | sync, input-continuous and default lanes survive a round trip through scheduler priorities, and so do Immediate, UserBlocking and Normal; the transition and idle lanes come back as NoLane |
| Priorities.Ordinal | packages/scheduler/src/Priority.ts:4-11 | each priority has its enum value 0..5, and converting that value back gives the same priority |
| Priorities.Timeout | packages/scheduler/src/Priority.ts:18-27 | only Immediate has a negative timeout, no timeout exceeds 2^30-1, and only Idle reaches it |
| Priorities.TimeoutsIncrease | packages/scheduler/src/Priority.ts:20-26 | from Immediate to Idle, a less urgent priority has a strictly longer timeout |
| Tasks.EffectiveDelay | packages/scheduler/src/Task.ts:57-59 | the start time is shifted only by a given, positive delay, and then by exactly that delay |
| Tasks.NewTask | packages/scheduler/src/Task.ts:55-65 | the task takes the next id and the counter moves on by one; executor and priority are stored as given; the start is the current time (a clock reading when that is 0) plus any positive delay; the deadline is the start plus the priority's timeout, so it precedes the start only for Immediate |
| Tasks.ConstructedIdsIncrease | packages/scheduler/src/Task.ts:61 | successive constructions hand out consecutive, hence strictly increasing, ids |
| MinHeap.HeapRootIsMin | packages/scheduler/src/Heap.ts:39-50 | in a heap-ordered array no element weighs less than the root |
| MinHeap.Exchange | packages/scheduler/src/Heap.ts:102-111 | returns y; equal indices leave the array unchanged; otherwise exactly the two positions trade places |
| MinHeap.SiftUp | packages/scheduler/src/Heap.ts:39-50 | the sift-up permutes the array, and restores heap order when only the moving element may be out of place |
| MinHeap.Push | packages/scheduler/src/Heap.ts:29-35 | returns the node; a falsy node changes nothing; otherwise the heap gains exactly that node and stays heap-ordered |
| MinHeap.Peek | packages/scheduler/src/Heap.ts:84-86 | null exactly for an empty heap; otherwise the root, which in an ordered heap weighs no more than any element |
| MinHeap.Compare | packages/scheduler/src/Heap.ts:93-95 | throws iff an index is out of range; otherwise negative iff the first element is lighter |
| MinHeap.GetSmallest | packages/scheduler/src/Heap.ts:117-127 | -1 iff no index is in range; otherwise an in-range listed index of minimum weight, which replaces the first index only when strictly lighter |
| MinHeap.GetSmallestAsWritten | packages/scheduler/src/Heap.ts:117-127 | as written, the scan throws iff some listed index is out of range, and otherwise agrees with GetSmallest |
| MinHeap.DownTarget | packages/scheduler/src/Heap.ts:69-78 | the element a sift-down step moves to: the parent itself, or an in-range child strictly lighter than it, and never heavier than any in-range child |
| MinHeap.SiftDown | packages/scheduler/src/Heap.ts:64-80 | the sift-down permutes the array, and restores heap order when only the top element may be out of place |
| MinHeap.SiftDownAsWritten | packages/scheduler/src/Heap.ts:64-80 | the sift-down as written, which always compares the right child: when it does not throw it agrees with SiftDown |
| MinHeap.SiftDownAsWrittenThrows | packages/scheduler/src/Heap.ts:71 | as written, a sift-down from a parent whose left child is the last element throws, because the missing right child is read |
| MinHeap.Pop | packages/scheduler/src/Heap.ts:51-59 | null for an empty heap; a single element is returned and leaves the heap empty; otherwise the root is returned, the rest is the old multiset minus it, heap order is kept, and the returned element has minimum weight |
| MinHeap.PopAsWritten | packages/scheduler/src/Heap.ts:51-59 | pop as written never throws on up to two elements, and when it does not throw it agrees with Pop |
| MinHeap.PopOfThreeThrows | packages/scheduler/src/Heap.ts:51-80 | as written, popping a three-element heap always throws |
| Scheduler.InitialState | packages/scheduler/src/Scheduler.ts:14-30 | a fresh scheduler has both queues empty, current time and slice start -1, and the first task id next |
| Scheduler.AddTask | packages/scheduler/src/Scheduler.ts:108-130 | the new task gets the next id, executor and priority; it joins the sleep queue iff it starts later than the clock reading, and otherwise the ready queue, the other queue being untouched; both queues stay heap-ordered |
| Scheduler.AddTaskRouting | packages/scheduler/src/Scheduler.ts:108-130 | at a nonzero clock reading, a task sleeps iff it was given a positive delay |
| Scheduler.Wake | packages/scheduler/src/Scheduler.ts:70-84 | afterwards the sleep queue is empty or its top is live and not yet due; no queue grows except the ready queue, and both stay heap-ordered |
| Scheduler.WakeKeepsLive | packages/scheduler/src/Scheduler.ts:70-84 | every task with an executor is in one of the two queues exactly as often as before |
| Scheduler.WakeOnlyDrops | packages/scheduler/src/Scheduler.ts:70-84 | wake adds no task to the two queues taken together |
| Scheduler.WakeReadyGainsDue | packages/scheduler/src/Scheduler.ts:70-84 | the ready queue keeps all its tasks and gains only tasks whose start time has come |
| Scheduler.WakeLeavesNothingDue | packages/scheduler/src/Scheduler.ts:70-84 | with an ordered sleep queue, every task still asleep afterwards starts later than now |
| Scheduler.IfSliceEnd | packages/scheduler/src/Scheduler.ts:89-93 | true iff the time since the slice started is at least the 5 ms slice length; one clock reading is taken |
| Scheduler.RunTask | packages/scheduler/src/Scheduler.ts:164-176 | one turn on a function task either returns from the loop or pops at least one task; the run log only grows and the queues stay heap-ordered |
| Scheduler.StartSlice | packages/scheduler/src/Scheduler.ts:134-142 | a slice starts at a fresh clock reading, which becomes both the current time and the slice start; one reading is used, and on ordered queues no sleeping task that is due by then is left asleep, and both queues stay heap-ordered |
| Scheduler.Work | packages/scheduler/src/Scheduler.ts:134-143 | a successful run stays in the slice begun at a fresh clock reading, uses at least that reading, and keeps both queues heap-ordered |
| Scheduler.RunExecutor | packages/scheduler/src/Scheduler.ts:164-168 | running a task's executor changes only the number of clock readings; each call is logged and uses one unit of fuel; with the intended condition, an executor still set at the end means a clock reading showed the slice over |
| Scheduler.LoopFrom | packages/scheduler/src/Scheduler.ts:157-183 | the loop only adds to the run log, stays in the current slice (neither the slice start nor the current time moves), and keeps both queues heap-ordered |
| Scheduler.LoopReturnsWhenSliceEnded | packages/scheduler/src/Scheduler.ts:160-163 | once the slice has ended, the loop returns at once with the queues untouched and nothing run |
| Scheduler.LoopDropsNonFunction | packages/scheduler/src/Scheduler.ts:177-180 | a ready task whose executor is not a function is popped without being run, and the loop goes on |
| Scheduler.RunTaskAsWrittenStops | packages/scheduler/src/Scheduler.ts:166-172 | as written, while the slice lasts the executor loop calls nothing, so the task stays queued and the loop returns |
| Scheduler.LoopAsWrittenNeverRuns | packages/scheduler/src/Scheduler.ts:157-183 | as written, while the slice lasts the loop never calls an executor, and it leaves a ready function task in the queue |
| Scheduler.RunExecutorFinishes | packages/scheduler/src/Scheduler.ts:166-168 | with the intended condition, the executor loop stops within a lasting slice only once the executor is falsy |
| Scheduler.RunExecutorFirstCall | packages/scheduler/src/Scheduler.ts:166-168 | with the intended condition, a function executor is called at least once within a lasting slice, and that call is logged first |
| Scheduler.RunTaskRuns | packages/scheduler/src/Scheduler.ts:164-176 | with the intended condition, a function task is run and then popped, and the loop goes on |
| Scheduler.LoopDrainsWhileSliceLasts | packages/scheduler/src/Scheduler.ts:157-183 | with the intended condition, a loop that returns within a lasting slice has emptied the ready queue, having run the function task that was on top |
| Scheduler.LoopAsWritten | packages/scheduler/src/Scheduler.ts:157-183 | the loop as written keeps both queues heap-ordered |
| Scheduler.Loop | packages/scheduler/src/Scheduler.ts:157-183 | the loop with the executor condition corrected keeps both queues heap-ordered |
| Fibers.NewFiber | packages/react-reconciler/src/fiber.ts:23-42 | a new fiber keeps the given tag, key and pending props; it has no state node, type or ref, index 0, no memoized props, no alternate and no flags, and it is linked to no other fiber |
| UpdateQueues.CreateUpdate | packages/react-reconciler/src/updateQueue.ts:13-17 | the update carries the action unchanged |
| UpdateQueues.CreateUpdateQueue | packages/react-reconciler/src/updateQueue.ts:19-25 | a new queue has no pending update |
| UpdateQueues.EnqueueUpdate | packages/react-reconciler/src/updateQueue.ts:27-32 | the enqueued update becomes the pending one, whatever was pending before |
| UpdateQueues.LatestUpdateWins | packages/react-reconciler/src/updateQueue.ts:27-32 | after several enqueues only the last update is pending; with none the queue is unchanged |
| UpdateQueues.ProcessUpdateQueue | packages/react-reconciler/src/updateQueue.ts:34-55 | no pending update keeps the base state; a function action yields its result on the base state; any other action is the new state itself |
| UpdateQueues.ProcessSeesLatestOnly | packages/react-reconciler/src/updateQueue.ts:27-55 | processing after several enqueues gives the same state as processing only the last update |
| JsValues.GetProp | packages/react-noop-renderer/src/root.ts:51-53 | reading a property throws exactly for null and undefined |
| Fibers.CreateWorkInProgress | packages/react-reconciler/src/childFibers.ts:301-302 | the work-in-progress copy points back to the current fiber through `alternate`, takes the new pending props, keeps identity, state node, ref, index and memoized state, and starts with no flags, subtree flags or deletions |
| ChildFibers.DeleteChild | packages/react-reconciler/src/childFibers.ts:10-22 | without tracking nothing changes; with tracking the child is appended to the parent's deletions, ChildDeletion is added only with the first deletion, and nothing else of the parent changes |
| ChildFibers.DeleteRemainingChildren | packages/react-reconciler/src/childFibers.ts:23-33 | with tracking, every given old child is appended to the deletions in sibling order, ChildDeletion is added iff the list was null before; without tracking, or with no children, nothing changes |
| ChildFibers.DeleteRemainingConcat | packages/react-reconciler/src/childFibers.ts:23-33 | deleting two runs of children one after the other is deleting their concatenation |
| ChildFibers.UseFiber | packages/react-reconciler/src/childFibers.ts:301-306 | the reused fiber is a copy of the old one with the new props, index 0, no flags or deletions, and the old fiber as alternate |
| ChildFibers.CreateFiberFromElement | packages/react-reconciler/src/childFibers.ts:286-299 | a new fiber with no alternate or flags, carrying the element's type, key and props; a host component exactly for a string type, a function component otherwise |
| ChildFibers.PlaceSingleChild | packages/react-reconciler/src/childFibers.ts:98-103 | the fiber holds Placement afterwards iff it held it already or effects are tracked and it has no alternate; no other flag bit and no other field changes |
| ChildFibers.SingleElementFromSpec | packages/react-reconciler/src/childFibers.ts:39-72 | from any old child on, the first old child with the element's key is reused iff its type matches too, and a fresh fiber is made otherwise; every old child before it is deleted; without a reuse all remaining old children are deleted |
| ChildFibers.ReconcileSingleElementDeletesOthers | packages/react-reconciler/src/childFibers.ts:34-73 | when the first key match also matches the type, that old child is reused and every other old child is queued for deletion, in sibling order |
| ChildFibers.ReconcileSingleElementFresh | packages/react-reconciler/src/childFibers.ts:34-73 | when no old child matches key and type, a fresh fiber is created and every old child is queued for deletion |
| ChildFibers.ReconcileSingleElementAsWrittenKeepsLater | packages/react-reconciler/src/childFibers.ts:46-50 | as written, reusing an old child deletes only the old children before it; the ones after it stay attached |
| ChildFibers.SingleElementLeavesSiblingAlive | packages/react-reconciler/src/childFibers.ts:46-50 | for old children `div key=a` and `p key=b` updated to one `div key=a`, the code as written queues no deletion, while the corrected reconciler queues the `p` |
| ChildFibers.ReconcileSingleTextNodeSpec | packages/react-reconciler/src/childFibers.ts:74-97 | the first old text fiber is reused with the new content and every other old child is deleted; with no old text fiber a new one is made and all old children are deleted |
| ChildFibers.MapSet | packages/react-reconciler/src/childFibers.ts:177-185 | after `set`, `get` of the key returns the new value, and keys stay distinct |
| ChildFibers.MapDeleteValues | packages/react-reconciler/src/childFibers.ts:121-139 | deleting the key that was found removes exactly that one old fiber from the map's values |
| ChildFibers.BuildMapValues | packages/react-reconciler/src/childFibers.ts:176-185 | with distinct keys, the map built from the old children holds each of them exactly once, in sibling order |
| ChildFibers.UpdateFromMap | packages/react-reconciler/src/childFibers.ts:109-153 | an item yields a fiber iff it is a string, number or element, with the item's props and no flags; the old fiber under the item's key is reused exactly when it matches the item (a HostText fiber for text, the same `type` for an element), and then it is removed from the map; otherwise the map is unchanged |
| ChildFibers.MapDeleteOther | packages/react-reconciler/src/childFibers.ts:109-153 | deleting one key from the map of old children leaves the entry of every other key as it was |
| ChildFibers.BuildMapGet | packages/react-reconciler/src/childFibers.ts:176-185 | with distinct keys, the map of old children holds under each key exactly the old fiber with that key |
| ChildFibers.ReconcileChildrenArrayReuses | packages/react-reconciler/src/childFibers.ts:109-235 | with distinct old keys, and no key shared by two items unless no old fiber has it, every new fiber takes over the old fiber with its item's key exactly when the item matches it |
| ChildFibers.ReconcileChildrenArray | packages/react-reconciler/src/childFibers.ts:154-235 | the new fibers are the producing items' fibers, one per item, in item order, with the items' props; the parent changes only in its deletions and ChildDeletion, and not at all on mount |
| ChildFibers.ReconcileChildrenArrayAsWritten | packages/react-reconciler/src/childFibers.ts:104-235 | as written, the array differ throws exactly when an item is null or undefined, and otherwise agrees with the corrected one |
| ChildFibers.ReconcileSingleElement | packages/react-reconciler/src/childFibers.ts:34-73 | one fiber with the element's type, key and props and no flags, taking over the first old child with the element's key when its type matches too; the parent changes only in its deletions |
| ChildFibers.ReconcileSingleElementAsWritten | packages/react-reconciler/src/childFibers.ts:34-73 | as written, the same one fiber and the same reuse |
| ChildFibers.ReconcileSingleTextNode | packages/react-reconciler/src/childFibers.ts:74-97 | one HostText fiber with the text as `content` and no flags, taking over the first old HostText child; the parent changes only in its deletions |
| ChildFibers.ReconcileChildFibers | packages/react-reconciler/src/childFibers.ts:237-282 | an element gives one fiber of its type, key and props, taking over the first old child with its key and type; an array gives the array differ's fibers; text gives one HostText fiber; anything else gives no child; the parent changes only in its deletions (with the corrected differ: the corrected single-element, array and fallback halves) |
| ChildFibers.ReconcileChildFibersAsWritten | packages/react-reconciler/src/childFibers.ts:237-282 | as written, reconciling throws exactly on an array with a null or undefined item, and otherwise yields the same shape of children |
| ChildFibers.PlaceInArray | packages/react-reconciler/src/childFibers.ts:202-228 | the new fiber takes the array position as index; without tracking its flags and the last placed index are unchanged |
| ChildFibers.ArrayAsWrittenAgrees | packages/react-reconciler/src/childFibers.ts:154-236 | the array loop as written throws iff a null or undefined item remains, and otherwise gives the same result as the corrected loop |
| ChildFibers.ArrayWithNullItem | packages/react-reconciler/src/childFibers.ts:104-108 | for the items `[null, <p/>]`, the code as written throws, while the corrected reconciler yields the single `p` fiber at index 1 |
| ChildFibers.ArrayPositions | packages/react-reconciler/src/childFibers.ts:187-212 | every item that yields a fiber yields exactly one, with its own array position as index and its props, in item order |
| ChildFibers.MaxOldIndex | packages/react-reconciler/src/childFibers.ts:216-224 | the largest old index of a reused fiber in the chain, or 0: no reused fiber has a larger one, and a positive value is attained |
| ChildFibers.ArrayPlacement | packages/react-reconciler/src/childFibers.ts:213-228 | with tracking, a fiber gets Placement exactly when it is new or an earlier reused fiber came from a later old position, and it gets no other flag |
| ChildFibers.ArrayMountIsQuiet | packages/react-reconciler/src/childFibers.ts:213 | without tracking, no new fiber gets a flag and the parent is unchanged |
| ChildFibers.ArrayReuseOrDelete | packages/react-reconciler/src/childFibers.ts:187-233 | each old fiber in the map either is reused by one new fiber and leaves the map, or is still there at the end and queued for deletion |
| ChildFibers.ReconcileChildrenArrayAccounts | packages/react-reconciler/src/childFibers.ts:154-236 | with distinct old keys, every old child is reused exactly once or deleted exactly once |
| ChildFibers.ReconcileChildrenArraySpec | packages/react-reconciler/src/childFibers.ts:154-236 | the chain lists the fiber-producing items in order at their own indexes; with tracking Placement follows the move rule; without, no flag is set and the parent is unchanged |
| ChildFibers.FallbackDeletes | packages/react-reconciler/src/childFibers.ts:269-279 | a child value that is not an element, array, string or number leaves no children; the corrected fallback deletes every old child, the code as written only the first |
| ChildFibers.FallbackLeavesSiblingAlive | packages/react-reconciler/src/childFibers.ts:270-273 | two old children replaced by `null`: as written only the first is queued for deletion, corrected both are |
| ChildFibers.ReconcileChildFibersPlacement | packages/react-reconciler/src/childFibers.ts:237-267 | a single element or text child yields one fiber, which is placed iff effects are tracked and it was not reused; the mount reconciler leaves the parent alone |
| ChildFibers.MountLeavesNoMarks | packages/react-reconciler/src/childFibers.ts:283-284 | the mount reconciler never marks a child and never changes the parent |
| BeginWork.MarkRef | packages/react-reconciler/src/beginWork.ts:119-129 | Ref is set afterwards iff it was set or the ref is new on mount or changed on update; otherwise the fiber is unchanged, and no other bit or field changes |
| BeginWork.ReconcileChildren | packages/react-reconciler/src/beginWork.ts:104-117 | the children fit the new child (one fiber of an element's type, key and props, taking over the old child with its key and type; the array's items in order; one text fiber; or none); reconciling changes only the fiber's deletions and ChildDeletion, never its Ref bit; on mount (no alternate) the fiber is unchanged and no child is marked |
| BeginWork.BeginWork | packages/react-reconciler/src/beginWork.ts:11-97 | fails exactly for a root without an update queue or host component / provider props that are null or undefined; HostText and unhandled tags yield no children; the root consumes its pending update and its children fit its new state; the children of a host component and of a provider fit `props.children`, of a fragment its props, of a function component what it rendered |
| BeginWork.BeginWorkMarks | packages/react-reconciler/src/beginWork.ts:58-64 | only a host component can gain Ref, and exactly when its ref changed; on mount the new children carry no flags |
| BeginWork.BeginRootTwiceIsStable | packages/react-reconciler/src/beginWork.ts:40-51 | the root's pending update is consumed: beginning the root again gives the same state and queue |
| BeginWork.BeginWorkChangesOnlyEffects | packages/react-reconciler/src/beginWork.ts:11-117 | beginning a fiber changes only its flags and deletions, and for the root its state and queue; on mount, fibers other than host components and the root are unchanged |
| CompleteWork.MarkUpdate | packages/react-reconciler/src/completeWork.ts:7-9 | the Update bit is set afterwards, every other flag bit and every other field is unchanged, and a fiber already marked is returned as it was |
| CompleteWork.BubbleProperties | packages/react-reconciler/src/completeWork.ts:112-125 | bubbling changes nothing of the fiber but its subtree flags |
| CompleteWork.BubbleKeeps | packages/react-reconciler/src/completeWork.ts:124 | bubbling never clears a subtree flag the fiber already had |
| CompleteWork.BubbleNoKids | packages/react-reconciler/src/completeWork.ts:112-125 | a fiber without children is unchanged by bubbling |
| CompleteWork.BubbleCollects | packages/react-reconciler/src/completeWork.ts:116-122 | the subtree flags afterwards contain every direct child's flags and subtree flags |
| CompleteWork.BubbleAddsOnlyChildBits | packages/react-reconciler/src/completeWork.ts:112-125 | every bit bubbling adds comes from some direct child's flags or subtree flags |
| CompleteWork.AppendFiber | packages/react-noop-renderer/src/hostConfig.ts:53-61 | appending a fiber's node succeeds only for a parent node and a fiber with a host node, and then puts that node last among the parent's children, adding and removing no node |
| CompleteWork.AppendAllOrder | packages/react-reconciler/src/completeWork.ts:77-104 | after appending a run of host fibers, the parent's children are the old ones followed by the fibers' host nodes, in order |
| CompleteWork.AppendAllChildrenTopHosts | packages/react-reconciler/src/completeWork.ts:77-104 | the walk of `appendAllChildren` appends exactly the topmost host fibers below the fiber, in tree order, and nothing below a host fiber |
| CompleteWork.CompleteWork | packages/react-reconciler/src/completeWork.ts:11-66 | unknown tags pass unchanged without bubbling; root, function component and fragment only bubble; any tag changes nothing but the flags, subtree flags and host node |
| CompleteWork.CompleteWorkBubbles | packages/react-reconciler/src/completeWork.ts:34-59 | every handled tag bubbles its children's flags, and the fiber's own flags are kept or gain only Update |
| CompleteWork.CompleteWorkUpdate | packages/react-reconciler/src/completeWork.ts:19-26 | on update no host node changes; a host component is always marked Update, a text iff its old and new content differ |
| CompleteWork.CompleteWorkMount | packages/react-reconciler/src/completeWork.ts:27-48 | on mount a new host node is created and stored in the fiber; a host component first receives all its topmost host children, and a text fails only when its props are null or undefined |
| TreeWalk.Down | packages/react-reconciler/src/commitWork.ts:353-359 | stepping to `child` lands on the first child, with the fiber as its `return` and the other children as its siblings, and leaves strictly less of the walk ahead |
| TreeWalk.Right | packages/react-reconciler/src/commitWork.ts:363-366 | stepping to `sibling` stays under the same `return`, moves the left boundary past the old node, and leaves less of the walk ahead |
| TreeWalk.Up | packages/react-reconciler/src/commitWork.ts:368 | stepping to `return` lands on the parent, whose children are the node and its siblings in their original order |
| TreeWalk.DownKeepsTree | packages/react-reconciler/src/commitWork.ts:352-371 | moving to the child changes the position but not the tree, and `return` from the child gives back the starting position |
| TreeWalk.RightKeepsTree | packages/react-reconciler/src/commitWork.ts:363-366 | moving to the sibling does not change the tree |
| TreeWalk.UpRight | packages/react-reconciler/src/commitWork.ts:363-368 | a node and its sibling have the same `return` |
| TreeWalk.Visit | packages/react-reconciler/src/commitWork.ts:344-373 | a full visit of a subtree comes back to the position it started from |
| TreeWalk.VisitKids | packages/react-reconciler/src/commitWork.ts:361-369 | visiting a run of siblings ends on the last of them, under the same parent |
| TreeWalk.WalkDownVisits | packages/react-reconciler/src/commitWork.ts:352-371 | the two-loop pointer walk started at any node does the whole subtree of that node first (pre on the way down, post on the way up) and only then moves on |
| TreeWalk.WalkDownVisitsKids | packages/react-reconciler/src/workLoop.ts:40-55 | from a child, the pointer walk does that child and all its later siblings, then completes their parent |
| TreeWalk.WalkIsVisit | packages/react-reconciler/src/workLoop.ts:90-105 | on every tree and every per-node work, the loop over `child`/`sibling`/`return` computes exactly what depth-first pre/post-order recursion computes, failure included |
| TreeWalk.Address | packages/react-reconciler/src/commitWork.ts:352-371 | a node's address lists, for each step down from the root, how many siblings precede it |
| WorkLoop.TopmostIsRoot | packages/react-reconciler/src/workLoop.ts:28-33 | following `return` from any fiber until it is `null` ends at the root of the fiber's tree |
| WorkLoop.MarkUpdateFromFiberToRoot | packages/react-reconciler/src/workLoop.ts:25-38 | the result is the root's `stateNode` exactly when the root of the fiber's tree is a HostRoot, and `null` otherwise |
| WorkLoop.BeginStep | packages/react-reconciler/src/workLoop.ts:90-92 | after `beginWork`, `memoizedProps` is the fiber's `pendingProps`, and the begin of exactly this fiber is recorded |
| WorkLoop.CompleteStep | packages/react-reconciler/src/workLoop.ts:40-44 | completing a unit succeeds exactly when `completeWork` does, takes its fiber and host store, and records the completion of this fiber |
| WorkLoop.TraceLength | packages/react-reconciler/src/workLoop.ts:40-55 | the trace of a tree holds two steps per fiber: each fiber is begun once and completed once |
| WorkLoop.TraceBracket | packages/react-reconciler/src/workLoop.ts:90-99 | a fiber is begun before and completed after everything below it |
| WorkLoop.WorkLoopTrace | packages/react-reconciler/src/workLoop.ts:101-105 | a render that finishes begins the fibers in preorder and completes them in postorder: a parent's begin, its children's traces left to right, the parent's completion |
| WorkLoop.CommitRootAsWritten | packages/react-reconciler/src/workLoop.ts:57-88 | as written, `commitMutationEffects` gets no root, so the commit fails whenever the mutation pass queues a passive effect, and otherwise agrees with the corrected commit |
| WorkLoop.CommitRootLosesRoot | packages/react-reconciler/src/workLoop.ts:80 | a finished tree holding a function component with a passive effect commits with its effect queued when the root is passed, and fails as written |
| WorkLoop.CommitRoot | packages/react-reconciler/src/workLoop.ts:57-88 | no finished work: nothing changes; otherwise `finishedWork` is reset, the container, lanes and ping cache are kept, and without a mutation flag in the tree nothing else changes; with one, the mutation pass works on exactly the post-order list of fibers and its passive effects are the root's |
| CommitLog.UnbindRef | packages/react-reconciler/src/commitWork.ts:329-338 | a `null` ref is left alone; any other primitive ref throws, since strict code cannot write `current` to it; a function or object ref is detached with one recorded call |
| CommitLog.BindRef | packages/react-reconciler/src/commitWork.ts:313-323 | a `null` ref is left alone; any other primitive ref throws; a function or object ref gets the fiber's `stateNode` with one recorded call |
| CommitLog.PrimitiveRefThrows | packages/react-reconciler/src/commitWork.ts:313-338 | a number or string ref throws on either write, while an object or function ref takes it |
| CommitLog.CommitPassiveEffect | packages/react-reconciler/src/commitWork.ts:112-137 | the fiber's last effect is appended to the chosen list exactly when it is a function component with a last effect (and, for the update list, with `PassiveEffect`), and the lists are unchanged otherwise |
| HookEffects.Offset | packages/react-reconciler/src/commitWork.ts:144-151 | every position of the ring is reached from `lastEffect.next` after fewer than `n` steps of `next` |
| HookEffects.First | packages/react-reconciler/src/commitWork.ts:144 | the walk starts at the effect after `lastEffect`, wrapping round at the end |
| HookEffects.RingOrder | packages/react-reconciler/src/commitWork.ts:144-151 | the `do`/`while` loop visits as many effects as the ring holds, each by following `next` from `lastEffect.next` |
| HookEffects.RingOrderIsPermutation | packages/react-reconciler/src/commitWork.ts:144-151 | the visiting order starts after `lastEffect`, visits no effect twice, and visits every effect |
| HookEffects.Callback | packages/react-reconciler/src/commitWork.ts:160-206 | the unmount pass calls `destroy` if it is a function and clears `HookHasEffect`; the destroy pass only calls `destroy`; the create pass calls `create` if it is a function, stores its result as `destroy`, and clears `HookHasEffect` |
| HookEffects.TreatNext | packages/react-reconciler/src/commitWork.ts:146-150 | one turn of the loop treats the next effect of the ring and leaves the others as they are |
| HookEffects.TreatedAll | packages/react-reconciler/src/commitWork.ts:151 | once the walk is back at `lastEffect.next`, every effect has been treated |
| HookEffects.CommitHookEffectList | packages/react-reconciler/src/commitWork.ts:139-152 | each effect is changed by the callback exactly when its tag holds every bit of `flags`, no effect is treated twice, the user calls come in ring order, and `lastEffect` stays |
| HookEffects.DestroyPassKeepsRing | packages/react-reconciler/src/commitWork.ts:178-188 | the destroy pass leaves every effect unchanged |
| HookEffects.SecondPassFiresNothing | packages/react-reconciler/src/commitWork.ts:160-171 | after an unmount or create pass whose flags include `HookHasEffect`, no effect fires again for the same flags |
| CommitWork.CommitPlacement | packages/react-reconciler/src/commitWork.ts:10-29 | without a host parent nothing changes; otherwise the fiber's topmost host nodes are placed, in order, into the host parent before the first stable host node that follows the fiber |
| CommitWork.Toggle | packages/react-reconciler/src/commitWork.ts:457-476 | one hide or unhide call is recorded for a host fiber; unhiding a text fiber whose props are `null` or `undefined` throws |
| CommitWork.ToggleBelowCallsVisibleHosts | packages/react-reconciler/src/commitWork.ts:483-526 | below the toggled fiber the walk calls back exactly the topmost host fibers not inside a hidden Offscreen fiber, in tree order, and fails exactly when a prop it reads is missing |
| CommitWork.ToggleAllCallsVisibleHosts | packages/react-reconciler/src/commitWork.ts:483-526 | the same for a run of siblings: the calls of each sibling's visible host fibers, concatenated left to right |
| CommitWork.HideOrUnhideAllChildren | packages/react-reconciler/src/commitWork.ts:451-526 | `hideOrUnhideAllChildren` calls back the fiber itself when it is a host fiber, and otherwise exactly the visible topmost host fibers below it, in order; it fails exactly when a prop it reads is missing |
| CommitWork.HideOrUnhideAllChildrenAsWritten | packages/react-reconciler/src/commitWork.ts:507-524 | as written, a childless non-host fiber with a sibling makes the walk throw; without that case it agrees with the corrected walk |
| CommitWork.ChildlessToggleEscapes | packages/react-reconciler/src/commitWork.ts:507-524 | as written, toggling a childless fiber that has a sibling leaves the subtree and throws; with the walk kept inside the subtree it does nothing |
| CommitWork.ClearFlag | packages/react-reconciler/src/commitWork.ts:384 | clearing a bit changes the fiber's flags and nothing else |
| CommitWork.MutationClearedBits | packages/react-reconciler/src/commitWork.ts:380-420 | after the mutation pass, Placement, Update, ChildDeletion and PassiveEffect are gone, Visibility is gone from an Offscreen fiber, and Ref (and Visibility elsewhere) is as it was |
| CommitWork.PlacementStep | packages/react-reconciler/src/commitWork.ts:382-385 | with Placement set, the placement is done and the bit cleared; without it nothing changes |
| CommitWork.UpdateStep | packages/react-reconciler/src/commitWork.ts:386-389 | with Update set, `commitUpdate` runs and the bit is cleared; without it nothing changes |
| CommitWork.DeletionStep | packages/react-reconciler/src/commitWork.ts:390-399 | with ChildDeletion set, every fiber of `deletions` is deleted in order and the bit is cleared, even when `deletions` is `null`; without it nothing changes |
| CommitWork.PassiveStep | packages/react-reconciler/src/commitWork.ts:401-409 | with PassiveEffect set, the fiber's effects are queued on the update list and the bit is cleared; without it nothing changes |
| CommitWork.RefStep | packages/react-reconciler/src/commitWork.ts:411-413 | a host component with Ref has its old ref detached, and the bit stays for the layout pass; any other fiber is left alone |
| CommitWork.VisibilityStep | packages/react-reconciler/src/commitWork.ts:415-419 | an Offscreen fiber with Visibility has what is below it hidden or shown by its mode, and loses the bit; any other fiber is left alone |
| CommitWork.MutationOnFiber | packages/react-reconciler/src/commitWork.ts:380-420 | each handled bit is cleared exactly when it was set at the start, and a fiber with nothing to handle changes nothing |
| CommitWork.StepFlagsCleared | packages/react-reconciler/src/commitWork.ts:380-420 | the flags after the mutation steps are the starting flags with the handled bits taken off |
| CommitWork.MutationOnFiberClears | packages/react-reconciler/src/commitWork.ts:380-420 | a fiber after the mutation pass has none of the bits the pass handles and keeps every other bit |
| CommitWork.LayoutOnFiber | packages/react-reconciler/src/commitWork.ts:431-438 | a host component with Ref has its ref attached and loses Ref, and throws exactly for a primitive ref other than `null`; any other fiber is left alone |
| CommitWork.RefCleared | packages/react-reconciler/src/commitWork.ts:436 | after the layout pass the fiber has no Ref bit, and a fiber without Ref keeps its flags |
| CommitWork.OnFiber | packages/react-reconciler/src/commitWork.ts:362 | each fiber the pass works on is recorded, in order |
| CommitWork.PostOrderShape | packages/react-reconciler/src/commitWork.ts:352-371 | a pass works on a fiber after every fiber below it that it works on, on the fiber itself exactly once, and on no fiber twice |
| CommitWork.VisitProcesses | packages/react-reconciler/src/commitWork.ts:352-371 | visiting a subtree works on the fibers of its post-order list, entering a fiber's children only when its `subtreeFlags` meet the mask |
| CommitWork.CommitMutationEffects | packages/react-reconciler/src/commitWork.ts:421-425 | the mutation pass works on exactly the post-order list of the fibers it reaches through `subtreeFlags` meeting the mutation mask |
| CommitWork.CommitLayoutEffects | packages/react-reconciler/src/commitWork.ts:439-443 | the layout pass works on exactly the post-order list of the fibers it reaches through `subtreeFlags` meeting the layout mask |
| CommitWork.CommitEffectsOrder | packages/react-reconciler/src/commitWork.ts:344-373 | a whole pass works on exactly the post-order list of the fibers it reaches: children before parents, siblings left to right, and the children of a fiber only when its `subtreeFlags` meet the pass's mask |
| CommitHost.HostParentIndex | packages/react-reconciler/src/commitWork.ts:252-266 | the climb from `return` stops at the nearest ancestor that is a host component or the host root, and no ancestor nearer the fiber is one |
| CommitHost.GetHostParent | packages/react-reconciler/src/commitWork.ts:252-271 | the host parent is the node of the nearest host-component or host-root ancestor, and `null` when the fiber has no such ancestor |
| CommitHost.ClimbSearches | packages/react-reconciler/src/commitWork.ts:218-230 | the climb to the next sibling, stopping at a host parent or the root, finds what a tree-order search of everything after the fiber finds |
| CommitHost.DescendSearches | packages/react-reconciler/src/commitWork.ts:232-248 | the descent into a sibling, skipping placed subtrees and childless fibers, finds what a tree-order search of that sibling and what follows it finds |
| CommitHost.GetHostSibling | packages/react-reconciler/src/commitWork.ts:213-250 | the host sibling is the first stable host fiber after the fiber in tree order, under the same host parent and not inside a subtree being placed |
| CommitHost.FoundIsStableHost | packages/react-reconciler/src/commitWork.ts:245-248 | a host sibling found inside a subtree is the node of one of its topmost host fibers, and that fiber is stable |
| CommitHost.PlaceHost | packages/react-reconciler/src/commitWork.ts:279-289 | a host fiber's node is inserted just before the sibling's node when there is a sibling, and appended to the parent's children otherwise |
| CommitHost.PlaceAllConcat | packages/react-reconciler/src/commitWork.ts:297-305 | placing two runs of host fibers is placing the first run, then the second |
| CommitHost.InsertOrAppend | packages/react-reconciler/src/commitWork.ts:273-307 | with the sibling passed on, placing a subtree places exactly its topmost host fibers, in tree order, each before the sibling |
| CommitHost.InsertOrAppendAsWritten | packages/react-reconciler/src/commitWork.ts:273-307 | as written, the topmost host fibers under a non-host fiber are all appended, whatever the sibling; a host fiber itself is placed before the sibling |
| CommitHost.FragmentOfOneHost | packages/react-reconciler/src/commitWork.ts:291-296 | a fragment around one host leaf places that leaf before the sibling when the sibling is passed on, and as written appends it |
| CommitHost.FragmentBeforeSiblingIsAppended | packages/react-reconciler/src/commitWork.ts:293-296 | as written, a fragment placed in front of a stable `div` puts its `span` after the `div` |
| CommitHost.FragmentBeforeSiblingIsInserted | packages/react-reconciler/src/commitWork.ts:273-307 | with the sibling passed on, the same `span` lands in front of the `div` |
| CommitDeletion.Unmount | packages/react-reconciler/src/commitWork.ts:55-78 | the unmount work on the way down leaves the fiber itself unchanged |
| CommitDeletion.RemoveHost | packages/react-reconciler/src/commitWork.ts:103-105 | removing a fiber's node succeeds exactly when the host parent exists and holds that node, and then takes out its first occurrence and nothing else |
| CommitDeletion.UnmountStep | packages/react-reconciler/src/commitWork.ts:55-78 | on the way down a function component queues its effect list for unmount, a host component detaches the deleted fiber's ref, the host store is untouched, and the first host fiber outside any remembered one is remembered and becomes `temp` |
| CommitDeletion.VisitDeletes | packages/react-reconciler/src/commitWork.ts:53-97 | with `temp` cleared on leaving, walking a subtree queues the effect lists of all its function components and detaches once per host component, in preorder, and remembers exactly its topmost host fibers |
| CommitDeletion.VisitKidsDeletes | packages/react-reconciler/src/commitWork.ts:80-96 | the same over a fiber and its later siblings, in order |
| CommitDeletion.DeletionWalkFindsTopHosts | packages/react-reconciler/src/commitWork.ts:41-97 | the corrected walk over a deleted subtree ends with `temp` clear, remembers exactly the subtree's topmost host fibers in tree order, queues every function component's effect list for unmount, detaches one ref per host component, and leaves the host store alone |
| CommitDeletion.CommitDeletion | packages/react-reconciler/src/commitWork.ts:41-107 | a successful deletion queues the effect list of every function component in the subtree for unmount, in preorder, and detaches the deleted fiber's ref once per host component; without a host parent or host fibers the host store is untouched |
| CommitDeletion.CommitDeletionAsWritten | packages/react-reconciler/src/commitWork.ts:41-107 | as written, deleting a childless fiber that has a sibling fails; a childless fiber without one is deleted as by the corrected walk |
| CommitDeletion.LeafWalksAgree | packages/react-reconciler/src/commitWork.ts:53-97 | on a childless deleted fiber the walk as written and the corrected walk fail together, and otherwise remember the same fibers and reach the same commit state |
| CommitDeletion.CommitDeletionRemovesTopHosts | packages/react-reconciler/src/commitWork.ts:99-107 | with a host parent, deleting a subtree that has host fibers removes the nodes of exactly its topmost host fibers from that parent, in order |
| CommitDeletion.DeletionWalkIsVisit | packages/react-reconciler/src/commitWork.ts:53-97 | the `do`/`while` loop with its inner climb is the depth-first visit of the deleted subtree |
| CommitDeletion.AsWrittenFragmentOfTwoTexts | packages/react-reconciler/src/commitWork.ts:63-68 | as written, the walk over a fragment holding two texts remembers only the first text, and `temp` still points at it afterwards |
| CommitDeletion.StaleTempSkipsSecondText | packages/react-reconciler/src/commitWork.ts:80-94 | as written, `temp` is cleared only on climbing into it, so after a childless text the next text is not remembered |
| CommitDeletion.LeavingClearsTemp | packages/react-reconciler/src/commitWork.ts:41-107 | clearing `temp` on leaving a remembered fiber, both texts of the fragment are remembered |
| CommitDeletion.ChildlessWithSiblingThrows | packages/react-reconciler/src/commitWork.ts:80-96 | as written, deleting a childless text that has a sibling walks into the sibling, climbs past the root and throws; with the walk kept in the subtree, the text's node is removed from its container and the other node stays |
| NoopHost.Allocate | packages/react-noop-renderer/src/hostConfig.ts:25-28 | a new node gets the next id, which no existing node has, the counter moves up by one, and every existing node is kept |
| NoopHost.CreateContainer | packages/react-noop-renderer/src/hostConfig.ts:30-35 | a new container has a fresh id and no children |
| NoopHost.CreateInstance | packages/react-noop-renderer/src/hostConfig.ts:37-46 | a new instance has a fresh id, the given type and props, no children and no parent |
| NoopHost.CreateTextInstance | packages/react-noop-renderer/src/hostConfig.ts:63-70 | a new text instance has a fresh id, the given text and no parent |
| NoopHost.IdsIncrease | packages/react-noop-renderer/src/hostConfig.ts:25-28 | ids handed out one after another are strictly increasing and never reuse an existing node's id |
| NoopHost.AppendInitialChild | packages/react-noop-renderer/src/hostConfig.ts:53-61 | appending throws exactly when the child already has a different parent; otherwise the child is added at the end of the parent's children and records the parent's id, and no node is created or lost |
| NoopHost.AppendChildToContainer | packages/react-noop-renderer/src/hostConfig.ts:77-84 | appending to a container throws exactly when the child's parent is neither unset nor the container's id; otherwise the child goes at the end and its parent becomes the container object itself |
| NoopHost.ContainerAppendIsOneShot | packages/react-noop-renderer/src/hostConfig.ts:77-84 | once a child has been appended to a container, its parent no longer compares equal to any id, so appending it again anywhere throws |
| NoopHost.IndexOf | packages/react-noop-renderer/src/hostConfig.ts:99 | the position found is the first occurrence of the element, and -1 exactly when it is absent |
| NoopHost.RemoveFirst | packages/react-noop-renderer/src/hostConfig.ts:136-141 | removing an element present takes out one occurrence and keeps every other element; removing an absent one changes nothing |
| NoopHost.InsertBeforeSeq | packages/react-noop-renderer/src/hostConfig.ts:93-113 | inserting throws exactly when `before` is not among the children; otherwise the children are the old ones with the child moved or added, one more only when it was not there |
| NoopHost.BeforeAfterRemoval | packages/react-noop-renderer/src/hostConfig.ts:104-110 | after the child is taken out, the decremented index still points at `before` |
| NoopHost.InsertBeforePlaces | packages/react-noop-renderer/src/hostConfig.ts:93-113 | after inserting, the child sits immediately before `before`, and the other children keep their order |
| NoopHost.InsertThenRemove | packages/react-noop-renderer/src/hostConfig.ts:93-142 | inserting a new child before a sibling and then removing it gives back the original children |
| NoopHost.InsertBefore | packages/react-noop-renderer/src/hostConfig.ts:93-113 | `insertBefore` changes only the parent's children, in the way described above, and throws exactly when `before` is missing |
| NoopHost.RemoveChild | packages/react-noop-renderer/src/hostConfig.ts:132-142 | `removeChild` throws exactly when the child is not among the container's children; otherwise it takes out its first occurrence and changes no other node |
| NoopHost.CommitTextUpdate | packages/react-noop-renderer/src/hostConfig.ts:128-130 | the text instance gets the new text and keeps its parent, and no other node changes |
| NoopHost.CommitUpdate | packages/react-noop-renderer/src/hostConfig.ts:115-126 | only a text fiber is updated; it throws exactly when its props are `null` or `undefined` or it has no node, and otherwise only its node changes, to the props' `content` |
| NoopRoot.SetChildren | packages/react-noop-renderer/src/root.ts:56-58 | setting `children` throws exactly on a primitive (strict code), and on a plain object sets that one field |
| NoopRoot.SetChildrenOnObjects | packages/react-noop-renderer/src/root.ts:56-58 | arrays and functions take the property; a number and `null` throw |
| NoopRoot.ParseNode | packages/react-noop-renderer/src/root.ts:50-71 | a text instance reads as its text; an instance reads as an element of its type whose props gain `children` exactly when its children read as something other than `null`, and this fails only when that read fails or the props are not an object |
| NoopRoot.ParseItems | packages/react-noop-renderer/src/root.ts:39 | each child is read on its own, in order, and the list fails exactly when one child fails |
| NoopRoot.ParseList | packages/react-noop-renderer/src/root.ts:31-48 | no children read as `null`, one child as that child, several as the concatenation of their texts when all are strings or numbers, and as an array of them otherwise |
| NoopRoot.ParseChildToJSX | packages/react-noop-renderer/src/root.ts:24-28 | a string or number reads as itself |
| NoopRoot.GetChildrenAsJSX | packages/react-noop-renderer/src/root.ts:74-90 | the container's children are read; an array result is wrapped in a Fragment element, and any other result is returned as it is |
| NoopRoot.ArrayResultHasTwoOrMore | packages/react-noop-renderer/src/root.ts:31-48 | an array result has one item per child, at least two, and at least one of them is not text |
| NoopRoot.TextsJoin | packages/react-noop-renderer/src/root.ts:40-45 | two or more text children read as one string, the concatenation of their texts in order |
| Jsx.KeyOf | packages/react/src/jsx.ts:23-28 | a missing or `undefined` key gives `null`; any other key is converted to a string |
| Jsx.PropsOf | packages/react/src/jsx.ts:21-47 | props never hold `key` or `ref`, hold every other own field of `config`, and hold `children` as the single extra argument or the array of several, overriding `config.children` |
| Jsx.JsxElement | packages/react/src/jsx.ts:16-50 | creating an element fails exactly when the key cannot be converted to a string, and otherwise gives an element of the type with that key, ref and props |
| Jsx.JsxDEV | packages/react/src/jsx.ts:52 | `jsxDEV` is `jsx` |
| Jsx.ElementReadsBack | packages/react/src/jsx.ts:4-50 | reading the element back gives the element marker, the type, the key and ref from `config` (`null` when absent), props without `key` or `ref`, and every other field of `config` unchanged |
| Jsx.ChildrenReadBack | packages/react/src/jsx.ts:40-47 | one extra argument becomes `props.children` as it is, several become an array in order, and none leaves `config.children` |
| ReactContext.SetCurrentValue | packages/react/src/context.ts:7 | setting one context's current value leaves every other context's value alone |
| ReactContext.CreateContext | packages/react/src/context.ts:4-18 | a new context has a fresh identity, starts with the default value, and changes no other context |
| ReactContext.CreateContextShape | packages/react/src/context.ts:4-18 | the context carries the context marker and a Provider carrying the provider marker whose `_context` is the context itself |
| ReactContext.ContextsAreFresh | packages/react/src/context.ts:4-18 | two contexts created one after another are distinct and each keeps its own default value |
| FiberContext.PushContextValue | packages/react-reconciler/src/fiberContext.ts:15-20 | pushing saves the context's current value on the stack and makes the new value current, and no other context changes |
| FiberContext.PopContextValue | packages/react-reconciler/src/fiberContext.ts:22-24 | popping makes the top of the stack the context's current value and removes it; an empty stack makes it `undefined` |
| FiberContext.PushThenPop | packages/react-reconciler/src/fiberContext.ts:15-24 | a pop right after a push restores the stack and every context value |
| FiberContext.PushAll | packages/react-reconciler/src/fiberContext.ts:15-20 | each push adds one entry to the stack |
| FiberContext.NestedPushPopRestores | packages/react-reconciler/src/fiberContext.ts:15-24 | providers entered in any nesting and left in reverse order restore the stack and every context value, even for the same context pushed several times |
| SuspenseStack.GetNearestSuspenseFiber | packages/react-reconciler/src/suspenseStack.ts:6-8 | the nearest Suspense fiber is the last one pushed, and there is none exactly when the stack is empty |
| SuspenseStack.PushSuspenseFiber | packages/react-reconciler/src/suspenseStack.ts:10-12 | the fiber goes on top, and the new length is returned |
| SuspenseStack.PopSuspenseFiber | packages/react-reconciler/src/suspenseStack.ts:14-16 | popping removes and returns the top fiber, and returns nothing on an empty stack |
| SuspenseStack.PushThenPop | packages/react-reconciler/src/suspenseStack.ts:6-16 | right after a push the pushed fiber is the nearest, and popping it gives back the earlier stack |
| UnwindWork.PrimitiveContextThrows | packages/react-reconciler/src/fiberContext.ts:22-24 | a provider whose `_context` is the number 1 throws on unwinding, and one whose `_context` is a context object does not |
| UnwindWork.UnwindWork | packages/react-reconciler/src/unwindWork.ts:8-31 | a Suspense fiber always pops the Suspense stack, and one with ShouldCapture but no DidCapture swaps the first for the second and is returned; a context provider pops its context's value and returns `null`, throwing exactly when `_context` is a primitive (`null`, `undefined`, a boolean, number, string or symbol), since strict code cannot write `_currentValue` to one; any other fiber returns `null` and changes nothing |
| UnwindWork.CapturedDropsShouldCapture | packages/react-reconciler/src/unwindWork.ts:18 | the captured flags no longer hold ShouldCapture |
| UnwindWork.CapturedSetsDidCapture | packages/react-reconciler/src/unwindWork.ts:18 | the captured flags hold DidCapture |
| UnwindWork.CapturedKeepsOthers | packages/react-reconciler/src/unwindWork.ts:18 | capturing changes no flag other than ShouldCapture and DidCapture |
| UnwindWork.CapturesOnce | packages/react-reconciler/src/unwindWork.ts:14-20 | a Suspense fiber that captured once does not capture again: the second unwind returns `null` and leaves its flags alone |
| UnwindWork.SuspensePopsOnce | packages/react-reconciler/src/unwindWork.ts:12-13 | each Suspense unwind removes exactly the top of the Suspense stack and leaves the context stack alone |
| Thenables.Use | packages/react-reconciler/src/thenbale.ts:27-81 | a fulfilled thenable gives its value, a rejected one throws its reason, a pending one is remembered and suspends, and an untracked one becomes pending, is remembered and suspends, with no other thenable touched |
| Thenables.Settle | packages/react-reconciler/src/thenbale.ts:54-73 | a settlement changes the status only while it is pending, and only that thenable's |
| Thenables.GetSuspendedThenable | packages/react-reconciler/src/thenbale.ts:6-13 | taking the suspended thenable throws when there is none, and otherwise returns it and clears it |
| Thenables.FirstSettlementWins | packages/react-reconciler/src/thenbale.ts:54-73 | once a thenable has settled, a later settlement changes nothing |
| Thenables.UseSettleUse | packages/react-reconciler/src/thenbale.ts:6-81 | the first use of an untracked thenable suspends and remembers it, and after it settles the next use gives its value or throws its reason without changing anything |
| Thenables.UseWhilePending | packages/react-reconciler/src/thenbale.ts:34-48 | using a thenable still pending suspends again without changing any status |
| Throw.ListenToWakeable | packages/react-reconciler/src/throw.ts:36-68 | the lane is added to the wakeable's set in the ping cache, creating the cache and the set as needed, no other wakeable's set changes, and a listener is registered exactly when the lane was not already in the set |
| Throw.ThrowException | packages/react-reconciler/src/throw.ts:9-25 | a value that is not a wakeable (`Thenable`) changes nothing; a thenable marks the nearest Suspense fiber with ShouldCapture, when there is one, and lets the lane listen to it |
| Throw.Ping | packages/react-reconciler/src/throw.ts:59-65 | a ping removes the wakeable from the ping cache and adds the lane to the root's pending lanes, and nothing else changes |
| Throw.ListenIsIdempotent | packages/react-reconciler/src/throw.ts:56-67 | listening a second time with the same wakeable and lane registers nothing and changes nothing |
| Throw.PingThenListenAgain | packages/react-reconciler/src/throw.ts:41-66 | after a ping the lane is pending and the wakeable is forgotten, so listening again registers a new listener |
| SyncTaskQueue.AddCallbackToSyncQueue | packages/react-reconciler/src/syncTaskQueue.ts:11-17 | the callback goes at the end of the queue, which is created when there is none |
| SyncTaskQueue.FlushSyncCallbacks | packages/react-reconciler/src/syncTaskQueue.ts:19-35 | during a flush or with no queue nothing happens; otherwise the callbacks run in order up to and including the first that throws, and the queue is dropped and the flushing flag reset whatever happens |
| SyncTaskQueue.RunsUntilThrowIsUnique | packages/react-reconciler/src/syncTaskQueue.ts:23-25 | the callbacks a flush runs are determined by the queue and which callbacks throw |
| SyncTaskQueue.NoThrowRunsAll | packages/react-reconciler/src/syncTaskQueue.ts:23-25 | when no callback throws, every queued callback runs |
| SyncTaskQueue.AddThenFlushInOrder | packages/react-reconciler/src/syncTaskQueue.ts:11-35 | two callbacks added to an empty queue run in the order they were added |

## Left out

- Snapshot gaps: `fiber.ts` defines only `FiberNode`, and `fiberFlags.ts` and `workTags.ts` lack names that the other files use. The flags `Ref`, `Visibility`, `ShouldCapture` and `DidCapture` are fresh bits (16, 32, 64, 128). The `Suspense` and `Offscreen` tags are fresh tags. `subtreeFlags`, `deletions`, `updateQueue`, `memoizedState` and the root record `FiberRootNode` are fields with the meaning their callers give them. `createWorkInProgress` is a clone whose `alternate` is the old fiber.
- The masks `EffectMaskDuringMutation` (MutationMask, Ref and Visibility) and the layout mask (Ref) are not defined in the fiberFlags.ts of this model. They are chosen here.
- The layout pass is modelled (`CommitWork.LayoutOnFiber`) but `commitRoot` never calls it. `commitRoot` only switches `current` when the tree meets `MutationMask`.
- `renderRoot`'s `try`/`catch` retry loop (workLoop.ts:107-131) is left out. A throw during render ends the modelled walk with a failure.
- WorkLoop.WorkLoopTrace: the render loop walks a given tree of fibers. The children of each fiber are the ones its `beginWork` produced, and what `beginWork` does to the fiber itself is a parameter. The interleaving of child reconciliation with the walk is not modelled.
- `markRootUpdate` and `ensureRootIsScheduled`, which `throw.ts`'s ping calls, are left out: they belong to the scheduling of the root. `Throw.Ping` records the pinged lane in `pendingLanes`.
- The `WeakMap` keyed by thenable identity is a map keyed by the thenable's id.
- `then` callbacks run when a promise settles. Here that settlement is the explicit operation `Thenables.Settle`.
- `renderWithHooks` and the hook implementations (fiberHooks.ts), `fiberReconciler.ts` and `requestUpdateLane` are not part of this model. The effect lists they build are inputs.
- `MessageChannel`, `setTimeout` and the wall clock are left out: the clock is a parameter, and re-arming the next slice is not modelled.
- Scheduler.RunExecutor: the executor loop is bounded by a `fuel` parameter. When the fuel runs out the result is the failure `OutOfFuel`, which the source has no equivalent of. An executor that never returns a falsy value is therefore not modelled.
- A `Scheduler.loop` whose executor re-entrantly adds a task can make `readyQueue.pop()` remove a task other than the current one. The model has executors that do not add tasks.
- SyncTaskQueue.FlushSyncCallbacks: callbacks that enqueue further callbacks during a flush are not modelled. A callback is described only by whether it throws.
- NoopRoot.ParseNode: the recursion terminates because host nodes form finite trees. This is a ghost rank that callers must supply, stated in the `requires` clause `Ranked`.
- `root.ts` writes the converted children back into the instance's `props` object. The model builds a new props value for the snapshot and leaves the host store unchanged.
- The `__mark` field that `jsx.ts` and `root.ts` put on every element record is left out.
- `jsx`'s `for … in` over a config that is not a plain object, and inherited enumerable properties, are not modelled. A config is an object value, or `null` or `undefined`, which enumerate nothing.
- `console.log`, `console.warn` and `console.error` output (for example fiberContext.ts:16) is left out.
- Throw.ThrowException: every object with a callable `then` is written `Thenable(tid)`, so a plain `Obj` whose `then` is a function is not taken as a wakeable here, although `throw.ts:17` takes it; such an object has no identity for the ping cache to key on. Also, the source sets `ShouldCapture` on the fiber object that is both on the Suspense stack and in the work-in-progress tree. Fibers here are values, so only the stack's copy is marked; writing it back into the tree is left to the caller, and no caller of this model does so.
- ChildFibers.ReconcileChildFibers: composes the corrected halves of the three childFibers.ts findings (single element, array, fallback), so it does not throw on a `null` array item and deletes every remaining old child; `ChildFibers.ReconcileChildFibersAsWritten` is the as-written differ.
- NoopRoot.SetChildren: on an object other than a plain one (an array, function, element, context or thenable) the write succeeds, as in the source, but the model's value for such an object has no field map, so the props come back without `children`. Host instance props always come from the fresh plain object `jsx` builds.
- BeginWork.MarkRef: compares refs with value equality. A ref that is a plain object has no identity in the model, so a fresh `{current: null}` equal in contents to the current ref counts as unchanged, where `current.ref !== ref` (beginWork.ts:124) sets `Ref`. Fibers in this code base are only ever created with `ref = null` (fiber.ts:34).
- BeginWork.ReconcileChildren: reconciles with the corrected child differ, not with `ReconcileChildFibersAsWritten`. So an array child with a `null` item succeeds instead of throwing, the old children after a reused single element are deleted, and children `null` delete every old child rather than the first.
- BeginWork.BeginWork: the same corrected differ, so its failure condition leaves out the throw on an array child with a `null` or `undefined` item.
- CommitWork.CommitPlacement: places through the corrected `InsertOrAppend`; as written (`InsertOrAppendAsWritten`), the host nodes under a placed non-host fiber are appended after the host sibling.
- CommitWork.PlacementStep: performs the corrected placement of `CommitPlacement`.
- CommitWork.DeletionStep: deletes through the corrected `CommitDeletion`; as written (`CommitDeletionAsWritten`), later topmost host nodes can stay in the host, and a childless deleted fiber with a sibling throws.
- CommitWork.VisibilityStep: toggles through the corrected `HideOrUnhideAllChildren`; as written, a childless toggled fiber with a sibling throws.
- CommitWork.MutationOnFiber: composes the corrected placement, deletion and toggle steps above.
- CommitWork.CommitMutationEffects: runs the corrected `MutationOnFiber`.
- WorkLoop.CommitRoot: passes the root to the mutation pass, which `commitRoot` does not (see Findings), and runs the corrected mutation pass.
- Scheduler.Wake: pops with the corrected heap `pop`; as written, popping a queue of three tasks throws (`MinHeap.PopOfThreeThrows`).
- Scheduler.LoopAsWritten: models the inverted executor condition, but pops with the corrected heap `pop`, so a queue of three tasks does not throw as it does in the source.
- Scheduler.Work: starts the slice with the corrected `Wake` and runs the corrected `Loop`, not the inverted loop that `work()` calls.
- Floating-point numbers are left out: every number is an integer, and deadlines and timeouts are integer milliseconds.

## Findings

| source | as written | input that shows it | evidently intended | confidence | as-written member | corrected member |
|---|---|---|---|---|---|---|
| packages/scheduler/src/Heap.ts:71 | `down()` passes `rightChild` to `getSmallest` even when it equals `nodes.length`, and `compare` reads a weight of `undefined` | `pop()` on any heap of three tasks: after the move, the parent has only a left child, so the comparison reads past the end and throws | a right child past the end is skipped, and `pop` returns the minimum | not executed | MinHeap.PopOfThreeThrows | MinHeap.Pop |
| packages/scheduler/src/Heap.ts:64-80 | the same read inside the sift-down loop | a sift-down from a parent at position p of an array of length 2p+2 | the sift-down stays in range and restores heap order | not executed | MinHeap.SiftDownAsWrittenThrows | MinHeap.SiftDown |
| packages/scheduler/src/Scheduler.ts:166 | `while (!!executor && this.ifSliceEnd())` runs the executor only once the slice has ended, but line 161 has already returned in that case | any function task while the slice lasts: it is re-queued and never run | the executor is called while the slice has not ended | not executed | Scheduler.LoopAsWrittenNeverRuns | Scheduler.LoopDrainsWhileSliceLasts |
| packages/react-reconciler/src/childFibers.ts:104-108 | `getKey(item)` reads `item.key` before any check that the item is an object | the array `[null, <p/>]` as new children | a `null` item is skipped, as the `newFiber === null` branch of `reconcileChildrenArray` intends | not executed | ChildFibers.ArrayWithNullItem | ChildFibers.ReconcileChildrenArraySpec |
| packages/react-reconciler/src/childFibers.ts:46-50 | the old children after the reused one are never deleted: `existing.sibling` is read after `useFiber` has set it to `null` | old children `div key=a`, `p key=b`, new child `<div key=a>`: `b` is neither reused nor deleted | every old child except the reused one is deleted | not executed | ChildFibers.SingleElementLeavesSiblingAlive | ChildFibers.ReconcileSingleElementDeletesOthers |
| packages/react-reconciler/src/childFibers.ts:270-273 | the fallback for unsupported children calls `deleteChild` on the first old child only | two old children and new children `null`: the second is neither kept nor deleted | `deleteRemainingChildren`, so every old child is deleted | not executed | ChildFibers.FallbackLeavesSiblingAlive | ChildFibers.FallbackDeletes |
| packages/react-reconciler/src/commitWork.ts:80-94 | `temp` is cleared only when the walk climbs back into the remembered host fiber, which never happens for a host fiber without children | deleting a fragment with two text children: only the first text node is removed | every topmost host node of the deleted subtree is removed | not executed | CommitDeletion.StaleTempSkipsSecondText | CommitDeletion.LeavingClearsTemp |
| packages/react-reconciler/src/commitWork.ts:80-96 | the sibling step runs before the `node === childToDelete` test, so a childless deleted fiber steps into its sibling and the walk leaves the subtree | deleting a text fiber that has a sibling: the walk climbs past the root and reads `sibling` of `null` | the walk stops at the deleted fiber and removes its host node | not executed | CommitDeletion.ChildlessWithSiblingThrows | CommitDeletion.CommitDeletionRemovesTopHosts |
| packages/react-reconciler/src/commitWork.ts:293-303 | the recursive calls of `insertBeforeSiblingOrAppendIntoParent` drop `hostSibling`, so the host nodes under a placed non-host fiber are appended | a placed fragment holding one `span`, in front of a stable `div` sibling: the `span` ends up after the `div` | the host nodes go before the host sibling | not executed | CommitHost.FragmentBeforeSiblingIsAppended | CommitHost.FragmentBeforeSiblingIsInserted |
| packages/react-reconciler/src/commitWork.ts:507-524 | as in the deletion walk, a childless toggled fiber with a sibling steps into the sibling and climbs past the root | hiding an Offscreen fiber without children that has a sibling | nothing under the fiber is toggled and the walk stops | not executed | CommitWork.ChildlessToggleEscapes | CommitWork.HideOrUnhideAllChildren |
| packages/react-reconciler/src/workLoop.ts:80 | `commitMutationEffects(finishedWork)` passes no root, so `root.pendingPassiveEffects` at commitWork.ts:130 is read from `undefined` | committing a tree holding a function component with a passive effect and an effect list | the root is passed and the effect list is queued on it | not executed | WorkLoop.CommitRootLosesRoot | WorkLoop.CommitRoot |
