/** A scheduler task and its constructor (packages/scheduler/src/Task.ts).

    The static `Task.nextId` counter is threaded explicitly: the constructor
    takes the next free id and hands back the one after it. The wall clock
    the constructor falls back to is a parameter. */
module Tasks {
  import opened Wrappers
  import opened JsValues
  import opened Priorities

  datatype Task = Task(
    id: nat,
    executor: Value,
    priority: Priority,
    startTime: int,
    deadline: int)

  /** The value `Task.nextId` starts at. */
  const FirstTaskId: nat := 1

  /** `typeof executor === 'function'`. */
  predicate IsExecutor(executor: Value) {
    IsFunction(executor)
  }

  /** `options && options.delay && options.delay > 0`: the delay that
      actually shifts the start time, or 0 when there is none. */
  function EffectiveDelay(delay: Option<int>): (d: nat)
    ensures d > 0 <==> delay.Some? && delay.value > 0
    ensures d > 0 ==> d == delay.value
  {
    match delay
    case Some(v) => if v > 0 then v else 0
    case None => 0
  }

  /** `new Task(currentTime, priority, executor, options)` with
      `Task.nextId == nextId`; `clockNow` is what `getCurrentTime()` would
      read if `currentTime` is falsy. Returns the task and the new value of
      `Task.nextId`. */
  function NewTask(nextId: nat, currentTime: int, clockNow: int, priority: Priority,
                   executor: Value, delay: Option<int>): (r: (Task, nat))
    ensures r.0.id == nextId && r.1 == nextId + 1
    ensures r.0.executor == executor && r.0.priority == priority
    ensures var base := if currentTime != 0 then currentTime else clockNow;
            r.0.startTime >= base
            && (delay.Some? && delay.value > 0 ==> r.0.startTime == base + delay.value)
            && (delay.None? || delay.value <= 0 ==> r.0.startTime == base)
    ensures r.0.deadline - r.0.startTime == Timeout(priority)
    ensures r.0.deadline < r.0.startTime <==> priority == ImmediatePriority
  {
    var now := if currentTime != 0 then currentTime else clockNow;
    var startTime := now + EffectiveDelay(delay);
    (Task(nextId, executor, priority, startTime, Timeout(priority) + startTime), nextId + 1)
  }

  /** The tasks `n` successive constructor calls produce, starting from
      counter value `nextId` (time, priority and executor are immaterial to
      the ids and fixed here). */
  function Construct(nextId: nat, n: nat, now: int): (ts: seq<Task>)
    ensures |ts| == n
    decreases n
  {
    if n == 0 then []
    else
      var (t, next) := NewTask(nextId, now, now, NormalPriority, Undefined, None);
      [t] + Construct(next, n - 1, now)
  }

  /** Ids handed out by successive constructor calls strictly increase, so
      no two tasks share an id. */
  lemma {:induction false} ConstructedIdsIncrease(nextId: nat, n: nat, now: int)
    ensures forall i :: 0 <= i < n ==> Construct(nextId, n, now)[i].id == nextId + i
    ensures forall i, j :: 0 <= i < j < n ==> Construct(nextId, n, now)[i].id < Construct(nextId, n, now)[j].id
    decreases n
  {
    if n > 0 {
      ConstructedIdsIncrease(nextId + 1, n - 1, now);
    }
  }
}
