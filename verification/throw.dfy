/** `throwException` and the ping cache
    (packages/react-reconciler/src/throw.ts).

    When rendering throws a thenable (a "wakeable"), the nearest Suspense
    fiber is asked to capture, and the render lane is registered as a
    listener of the wakeable in `root.pingCache`: a map from wakeable to the
    set of lanes already listening. A lane is registered once per wakeable;
    each first registration hands `ping` to `wakeable.then`, which is
    recorded here as a `Listener`. When the wakeable settles, `ping` drops
    the wakeable's entry and marks the lane pending on the root.

    The cache is a `WeakMap` keyed by object identity; wakeables are the
    `Thenable(tid)` values, keyed by `tid`. `markRootUpdate` is not part of
    this model's source files; it is taken to add the lane to
    `root.pendingLanes`. `ensureRootIsScheduled` (scheduling) is left out. */
module Throw {
  import opened Wrappers
  import opened JsValues
  import opened FiberFlags
  import opened FiberLanes
  import opened Fibers
  import opened SuspenseStack

  /** A `ping` handed to `wakeable.then` for a lane. */
  datatype Listener = Listener(tid: nat, lane: Lanes)

  /** The lanes listening to a wakeable; `undefined` for none. */
  function ThreadIds(cache: Option<map<nat, set<Lanes>>>, tid: nat): Option<set<Lanes>> {
    if cache.Some? && tid in cache.value then Some(cache.value[tid]) else None
  }

  /** `letLaneAsAListenerToWakeable(root, wakeable, lane)`: the root
      afterwards and the `ping` registered, if any. */
  function ListenToWakeable(root: FiberRootNode, tid: nat, lane: Lanes): (r: (FiberRootNode, seq<Listener>))
    ensures r.0.pingCache.Some? && ThreadIds(r.0.pingCache, tid).Some?
    ensures ThreadIds(r.0.pingCache, tid).value
            == (if ThreadIds(root.pingCache, tid).Some? then ThreadIds(root.pingCache, tid).value else {}) + {lane}
    ensures forall t :: t != tid ==> ThreadIds(r.0.pingCache, t) == ThreadIds(root.pingCache, t)
    ensures r.1 == if ThreadIds(root.pingCache, tid).Some? && lane in ThreadIds(root.pingCache, tid).value then []
                   else [Listener(tid, lane)]
    ensures r.0 == root.(pingCache := r.0.pingCache)
  {
    var cache := if root.pingCache.Some? then root.pingCache.value else map[];
    var threadIds := if tid in cache then cache[tid] else {};
    if lane in threadIds then (root.(pingCache := Some(cache[tid := threadIds])), [])
    else (root.(pingCache := Some(cache[tid := threadIds + {lane}])), [Listener(tid, lane)])
  }

  /** Whether `value` is a wakeable, the test
      `value !== null && typeof value === 'object' && typeof value.then === 'function'`:
      every object with a callable `then` is written `Thenable(tid)`, so
      the test is that constructor. */
  predicate IsWakeable(value: Value) {
    value.Thenable?
  }

  /** `throwException(root, value, lane)` with the Suspense stack: only a
      wakeable is handled; the nearest Suspense fiber on the stack, if any,
      gains `ShouldCapture`. */
  function ThrowException(root: FiberRootNode, value: Value, lane: Lanes, suspense: seq<Fiber>)
    : (r: (FiberRootNode, seq<Fiber>, seq<Listener>))
    ensures !IsWakeable(value) ==> r == (root, suspense, [])
    ensures IsWakeable(value) ==> (r.0, r.2) == ListenToWakeable(root, value.tid, lane)
    ensures IsWakeable(value) && suspense == [] ==> r.1 == []
    ensures IsWakeable(value) && suspense != [] ==>
              var top := suspense[|suspense| - 1];
              r.1 == suspense[..|suspense| - 1] + [top.(flags := top.flags | ShouldCapture)]
  {
    if !IsWakeable(value) then (root, suspense, [])
    else
      var stack := match GetNearestSuspenseFiber(suspense)
        case Some(top) => suspense[..|suspense| - 1] + [top.(flags := top.flags | ShouldCapture)]
        case None => suspense;
      var (root1, listeners) := ListenToWakeable(root, value.tid, lane);
      (root1, stack, listeners)
  }

  /** `ping()` of a listener: deletes the wakeable's entry from the cache
      and marks the lane pending on the root. */
  function Ping(root: FiberRootNode, l: Listener): (r: FiberRootNode)
    ensures ThreadIds(r.pingCache, l.tid).None?
    ensures forall t :: t != l.tid ==> ThreadIds(r.pingCache, t) == ThreadIds(root.pingCache, t)
    ensures r.pendingLanes == root.pendingLanes | l.lane
    ensures r == root.(pingCache := r.pingCache, pendingLanes := r.pendingLanes)
  {
    var cache := if root.pingCache.Some? then Some(root.pingCache.value - {l.tid}) else None;
    root.(pingCache := cache, pendingLanes := root.pendingLanes | l.lane)
  }

  /** A lane listens to a wakeable at most once: the second registration of
      the same pair registers nothing and changes nothing. */
  lemma ListenIsIdempotent(root: FiberRootNode, tid: nat, lane: Lanes)
    ensures var (root1, l1) := ListenToWakeable(root, tid, lane);
            var (root2, l2) := ListenToWakeable(root1, tid, lane);
            l2 == [] && root2 == root1
  {
    var (root1, _) := ListenToWakeable(root, tid, lane);
    var cache := root1.pingCache.value;
    assert cache[tid := cache[tid]] == cache;
  }

  /** Once the wakeable pings, the lane is pending and a new throw of the
      same wakeable registers the lane again. */
  lemma PingThenListenAgain(root: FiberRootNode, tid: nat, lane: Lanes)
    ensures var (root1, l1) := ListenToWakeable(root, tid, lane);
            var root2 := Ping(root1, Listener(tid, lane));
            && root2.pendingLanes & lane == lane
            && ListenToWakeable(root2, tid, lane).1 == [Listener(tid, lane)]
  {
  }
}
