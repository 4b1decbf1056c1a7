/** The queue of synchronous callbacks
    (packages/react-reconciler/src/syncTaskQueue.ts).

    Callbacks are user functions, named by id; whether one throws is the
    parameter `throws`. What a callback does besides throwing is outside
    the model. */
module SyncTaskQueue {
  import opened Wrappers

  /** `syncQueue` (`None` for `null`) and `isFlushingSyncQueue`. */
  datatype SyncQueue = SyncQueue(queue: Option<seq<nat>>, flushing: bool)

  const InitialQueue: SyncQueue := SyncQueue(None, false)

  /** `addCallbackToSyncQueue(callback)`: a fresh one-item queue, or the
      callback appended. */
  function AddCallbackToSyncQueue(q: SyncQueue, callback: nat): (r: SyncQueue)
    ensures r.queue == Some((if q.queue.Some? then q.queue.value else []) + [callback])
    ensures r.flushing == q.flushing
  {
    match q.queue
    case None => q.(queue := Some([] + [callback]))
    case Some(cs) => q.(queue := Some(cs + [callback]))
  }

  /** The callbacks run by a flush: in order, up to and including the
      first that throws. */
  ghost predicate RunsUntilThrow(cs: seq<nat>, throws: nat -> bool, ran: seq<nat>) {
    && |ran| <= |cs| && ran == cs[..|ran|]
    && (forall i :: 0 <= i < |ran| - 1 ==> !throws(ran[i]))
    && (|ran| < |cs| ==> ran != [] && throws(ran[|ran| - 1]))
  }

  /** `flushSyncCallbacks()`: unless a flush is under way or there is no
      queue, calls the queued callbacks in order until one throws (the
      error is swallowed), then drops the queue and clears the flag in
      `finally`. */
  method FlushSyncCallbacks(q: SyncQueue, throws: nat -> bool) returns (r: SyncQueue, ran: seq<nat>)
    ensures q.flushing || q.queue.None? ==> r == q && ran == []
    ensures !q.flushing && q.queue.Some? ==> r == SyncQueue(None, false) && RunsUntilThrow(q.queue.value, throws, ran)
  {
    if q.flushing || q.queue.None? {
      return q, [];
    }
    var cs := q.queue.value;
    ran := [];
    var i := 0;
    var threw := false;
    while i < |cs| && !threw
      invariant 0 <= i <= |cs|
      invariant ran == cs[..i]
      invariant forall j :: 0 <= j < i - 1 ==> !throws(cs[j])
      invariant threw ==> i > 0 && throws(cs[i - 1])
      invariant !threw && i > 0 ==> !throws(cs[i - 1])
    {
      ran := ran + [cs[i]];
      threw := throws(cs[i]);
      i := i + 1;
    }
    r := SyncQueue(None, false);
  }

  /** A flush with no throwing callback runs every callback in insertion
      order; one that throws runs exactly the callbacks before it and
      itself. */
  lemma RunsUntilThrowIsUnique(cs: seq<nat>, throws: nat -> bool, ran1: seq<nat>, ran2: seq<nat>)
    requires RunsUntilThrow(cs, throws, ran1) && RunsUntilThrow(cs, throws, ran2)
    ensures ran1 == ran2
  {
    if |ran1| != |ran2| {
      assert false;
    }
  }

  lemma NoThrowRunsAll(cs: seq<nat>, throws: nat -> bool, ran: seq<nat>)
    requires forall i :: 0 <= i < |cs| ==> !throws(cs[i])
    requires RunsUntilThrow(cs, throws, ran)
    ensures ran == cs
  {
    if |ran| < |cs| {
      assert false;
    }
  }

  /** Callbacks added one after another are flushed in the order added. */
  lemma AddThenFlushInOrder(a: nat, b: nat, throws: nat -> bool, ran: seq<nat>)
    requires !throws(a) && !throws(b)
    requires RunsUntilThrow(AddCallbackToSyncQueue(AddCallbackToSyncQueue(InitialQueue, a), b).queue.value, throws, ran)
    ensures ran == [a, b]
  {
    NoThrowRunsAll([a, b], throws, ran);
  }
}
