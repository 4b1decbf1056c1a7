/** The host root's update queue (packages/react-reconciler/src/updateQueue.ts).
    The queue holds at most one pending update. What calling a function
    action does is the parameter `call`. */
module UpdateQueues {
  import opened Wrappers
  import opened JsValues

  /** `Action<State>`: a new state, or a function from the old state to the new one. */
  datatype Update = Update(action: Value)

  datatype UpdateQueue = UpdateQueue(pending: Option<Update>)

  /** `createUpdate(action)`. */
  function CreateUpdate(action: Value): (u: Update)
    ensures u.action == action
  {
    Update(action)
  }

  /** `createUpdateQueue()`: nothing is pending. */
  function CreateUpdateQueue(): (q: UpdateQueue)
    ensures q.pending.None?
  {
    UpdateQueue(None)
  }

  /** `enqueueUpdate(queue, update)`: the new update replaces whatever was
      pending. */
  function EnqueueUpdate(q: UpdateQueue, u: Update): (r: UpdateQueue)
    ensures r.pending == Some(u)
  {
    q.(pending := Some(u))
  }

  /** Enqueueing several updates in turn. */
  function EnqueueAll(q: UpdateQueue, us: seq<Update>): (r: UpdateQueue)
    decreases |us|
  {
    if us == [] then q else EnqueueAll(EnqueueUpdate(q, us[0]), us[1..])
  }

  /** Only the last of several enqueued updates survives; with none, the
      queue is unchanged. */
  lemma {:induction false} LatestUpdateWins(q: UpdateQueue, us: seq<Update>)
    ensures us == [] ==> EnqueueAll(q, us) == q
    ensures us != [] ==> EnqueueAll(q, us).pending == Some(us[|us| - 1])
    decreases |us|
  {
    if |us| > 1 {
      LatestUpdateWins(EnqueueUpdate(q, us[0]), us[1..]);
    }
  }

  /** `processUpdateQueue(baseState, pending).memoizedState`. */
  function ProcessUpdateQueue(baseState: Value, pending: Option<Update>, call: (Value, Value) -> Value): (r: Value)
    ensures pending.None? ==> r == baseState
    ensures pending.Some? && IsFunction(pending.value.action) ==> r == call(pending.value.action, baseState)
    ensures pending.Some? && !IsFunction(pending.value.action) ==> r == pending.value.action
  {
    match pending
    case None => baseState
    case Some(u) => if IsFunction(u.action) then call(u.action, baseState) else u.action
  }

  /** After several updates are enqueued, processing the queue sees only
      the last one: earlier actions have no effect on the new state. */
  lemma ProcessSeesLatestOnly(q: UpdateQueue, us: seq<Update>, baseState: Value, call: (Value, Value) -> Value)
    requires us != []
    ensures ProcessUpdateQueue(baseState, EnqueueAll(q, us).pending, call)
            == ProcessUpdateQueue(baseState, Some(us[|us| - 1]), call)
  {
    LatestUpdateWins(q, us);
  }
}
