/** The task scheduler (packages/scheduler/src/Scheduler.ts): a sleep queue
    ordered by start time, a ready queue ordered by deadline, the routing of
    new tasks between them, `wake()`, the time-slice test and the work loop.

    Time is a parameter: `clock(k)` is what the k-th reading of the wall
    clock returns, and the state counts the readings taken so far. Calling
    an executor is the parameter `run`, from the function's id to what the
    call returns or throws. The message-channel and timer plumbing that
    arms the next slice is not modelled. */
module Scheduler {
  import opened Wrappers
  import opened JsValues
  import opened Priorities
  import opened Tasks
  import opened MinHeap

  /** `sliceLength`, in milliseconds. */
  const SliceLength: int := 5

  datatype SchedulerState = SchedulerState(
    currentTime: int,
    sliceStart: int,
    sleep: seq<Task>,
    ready: seq<Task>,
    nextId: nat,
    clockReads: nat)

  /** The sleep queue is keyed by `startTime`, the ready queue by `deadline`. */
  function StartTimeOf(t: Task): int { t.startTime }
  function DeadlineOf(t: Task): int { t.deadline }

  /** The initial field values: both clocks at -1 and both queues empty. */
  function InitialState(): (st: SchedulerState)
    ensures st.sleep == [] && st.ready == [] && st.nextId == FirstTaskId
    ensures st.currentTime == -1 && st.sliceStart == -1
  {
    SchedulerState(-1, -1, [], [], FirstTaskId, 0)
  }

  /** Both queues are heaps. */
  ghost predicate QueuesOrdered(st: SchedulerState) {
    HeapOrdered(st.sleep, StartTimeOf) && HeapOrdered(st.ready, DeadlineOf)
  }

  /** A task whose executor is falsy has been cancelled. */
  predicate Live(t: Task) {
    Truthy(t.executor)
  }

  // ---------------------------------------------------------------- addTask

  /** `addTask(priority, executor, options)`: refreshes `currentTime`, builds
      the task and files it in the sleep queue when it starts later than
      now, and in the ready queue otherwise. */
  function AddTask(st: SchedulerState, clock: nat -> int, priority: Priority, executor: Value,
                   delay: Option<int>): (r: (SchedulerState, Task))
    ensures r.1.id == st.nextId && r.0.nextId == st.nextId + 1
    ensures r.1.executor == executor && r.1.priority == priority
    ensures r.0.currentTime == clock(st.clockReads)
    ensures r.1.startTime > r.0.currentTime ==>
              r.0.ready == st.ready && multiset(r.0.sleep) == multiset(st.sleep) + multiset{r.1}
    ensures r.1.startTime <= r.0.currentTime ==>
              r.0.sleep == st.sleep && multiset(r.0.ready) == multiset(st.ready) + multiset{r.1}
    ensures QueuesOrdered(st) ==> QueuesOrdered(r.0)
  {
    var now := clock(st.clockReads);
    // `new Task` reads the clock again only when `now` is 0.
    var readCount := if now != 0 then st.clockReads + 1 else st.clockReads + 2;
    var (task, nextId) := NewTask(st.nextId, now, clock(st.clockReads + 1), priority, executor, delay);
    var st1 := st.(currentTime := now, nextId := nextId, clockReads := readCount);
    if task.startTime > now then
      (st1.(sleep := Push(st.sleep, StartTimeOf, Some(task)).0), task)
    else
      (st1.(ready := Push(st.ready, DeadlineOf, Some(task)).0), task)
  }

  /** While the clock reads a nonzero time, a new task sleeps exactly when
      it was given a positive delay, and is ready at once otherwise. */
  lemma AddTaskRouting(st: SchedulerState, clock: nat -> int, priority: Priority, executor: Value,
                       delay: Option<int>)
    requires clock(st.clockReads) != 0
    ensures var r := AddTask(st, clock, priority, executor, delay);
            r.1.startTime > r.0.currentTime <==> EffectiveDelay(delay) > 0
  {
  }

  // ---------------------------------------------------------------- wake

  /** `wake()` on the two queues: drops cancelled tasks from the top of the
      sleep queue and moves due ones to the ready queue, stopping at the
      first live task that is not yet due. */
  function Wake(sleep: seq<Task>, ready: seq<Task>, now: int): (r: (seq<Task>, seq<Task>))
    ensures r.0 == [] || (Live(r.0[0]) && r.0[0].startTime > now)
    ensures |r.0| + |r.1| <= |sleep| + |ready|
    ensures |r.0| <= |sleep| && |r.1| >= |ready|
    ensures HeapOrdered(sleep, StartTimeOf) ==> HeapOrdered(r.0, StartTimeOf)
    ensures HeapOrdered(ready, DeadlineOf) ==> HeapOrdered(r.1, DeadlineOf)
    decreases |sleep|
  {
    match Peek(sleep, StartTimeOf)
    case None => (sleep, ready)
    case Some(task) =>
      var rest := Pop(sleep, StartTimeOf).0;
      if !Live(task) then
        Wake(rest, ready, now)
      else if task.startTime <= now then
        Wake(rest, Push(ready, DeadlineOf, Some(task)).0, now)
      else
        (sleep, ready)
  }

  /** `wake()` loses no live task. */
  lemma {:induction false} WakeKeepsLive(sleep: seq<Task>, ready: seq<Task>, now: int, t: Task)
    requires Live(t)
    ensures var r := Wake(sleep, ready, now);
            multiset(r.0)[t] + multiset(r.1)[t] == multiset(sleep)[t] + multiset(ready)[t]
    decreases |sleep|
  {
    match Peek(sleep, StartTimeOf)
    case None =>
    case Some(task) =>
      var rest := Pop(sleep, StartTimeOf).0;
      assert multiset(rest) + multiset{task} == multiset(sleep);
      if !Live(task) {
        assert Wake(sleep, ready, now) == Wake(rest, ready, now);
        WakeKeepsLive(rest, ready, now, t);
      } else if task.startTime <= now {
        var ready' := Push(ready, DeadlineOf, Some(task)).0;
        assert Wake(sleep, ready, now) == Wake(rest, ready', now);
        WakeKeepsLive(rest, ready', now, t);
      }
  }

  /** `wake()` drops tasks only: nothing is added to the two queues. */
  lemma {:induction false} WakeOnlyDrops(sleep: seq<Task>, ready: seq<Task>, now: int, t: Task)
    ensures var r := Wake(sleep, ready, now);
            multiset(r.0)[t] + multiset(r.1)[t] <= multiset(sleep)[t] + multiset(ready)[t]
    decreases |sleep|
  {
    match Peek(sleep, StartTimeOf)
    case None =>
    case Some(task) =>
      var rest := Pop(sleep, StartTimeOf).0;
      assert multiset(rest) + multiset{task} == multiset(sleep);
      if !Live(task) {
        assert Wake(sleep, ready, now) == Wake(rest, ready, now);
        WakeOnlyDrops(rest, ready, now, t);
      } else if task.startTime <= now {
        var ready' := Push(ready, DeadlineOf, Some(task)).0;
        assert Wake(sleep, ready, now) == Wake(rest, ready', now);
        WakeOnlyDrops(rest, ready', now, t);
      }
  }

  /** The ready queue keeps its tasks and gains only due ones. */
  lemma {:induction false} WakeReadyGainsDue(sleep: seq<Task>, ready: seq<Task>, now: int)
    ensures var r := Wake(sleep, ready, now);
            && multiset(ready) <= multiset(r.1)
            && (forall t :: t in multiset(r.1) - multiset(ready) ==> t.startTime <= now)
    decreases |sleep|
  {
    match Peek(sleep, StartTimeOf)
    case None =>
    case Some(task) =>
      var rest := Pop(sleep, StartTimeOf).0;
      if !Live(task) {
        assert Wake(sleep, ready, now) == Wake(rest, ready, now);
        WakeReadyGainsDue(rest, ready, now);
      } else if task.startTime <= now {
        var ready' := Push(ready, DeadlineOf, Some(task)).0;
        assert Wake(sleep, ready, now) == Wake(rest, ready', now);
        WakeReadyGainsDue(rest, ready', now);
        var r := Wake(rest, ready', now);
        assert multiset(ready') == multiset(ready) + multiset{task};
        assert multiset(r.1) - multiset(ready) <= (multiset(r.1) - multiset(ready')) + multiset{task};
      }
  }

  /** With an ordered sleep queue, no task left asleep after `wake()` is
      due: every one starts later than now. */
  lemma WakeLeavesNothingDue(sleep: seq<Task>, ready: seq<Task>, now: int)
    requires HeapOrdered(sleep, StartTimeOf)
    ensures var r := Wake(sleep, ready, now);
            forall i :: 0 <= i < |r.0| ==> r.0[i].startTime > now
  {
    var r := Wake(sleep, ready, now);
    if r.0 != [] {
      RootIsLightest(r.0, StartTimeOf);
    }
  }

  /** Every task in `sleep` starts later than `now`. */
  predicate NothingDue(sleep: seq<Task>, now: int) {
    forall i :: 0 <= i < |sleep| ==> sleep[i].startTime > now
  }

  lemma WakeLeavesNothingDueIfOrdered(sleep: seq<Task>, ready: seq<Task>, now: int)
    ensures HeapOrdered(sleep, StartTimeOf) ==> NothingDue(Wake(sleep, ready, now).0, now)
  {
    if HeapOrdered(sleep, StartTimeOf) {
      WakeLeavesNothingDue(sleep, ready, now);
    }
  }

  /** `wake()` on the scheduler state, at the stored `currentTime`. */
  function WakeState(st: SchedulerState): (r: SchedulerState)
    ensures r.currentTime == st.currentTime && r.sliceStart == st.sliceStart
    ensures r.nextId == st.nextId && r.clockReads == st.clockReads
    ensures |r.sleep| + |r.ready| <= |st.sleep| + |st.ready| && |r.ready| >= |st.ready|
    ensures QueuesOrdered(st) ==> QueuesOrdered(r)
  {
    var (sleep, ready) := Wake(st.sleep, st.ready, st.currentTime);
    st.(sleep := sleep, ready := ready)
  }

  // ---------------------------------------------------------------- ifSliceEnd

  /** `ifSliceEnd()`: reads the clock once; the slice has ended when at
      least `sliceLength` milliseconds passed since it started. */
  function IfSliceEnd(st: SchedulerState, clock: nat -> int): (r: (bool, SchedulerState))
    ensures r.0 <==> clock(st.clockReads) - st.sliceStart >= SliceLength
    ensures r.1 == st.(clockReads := st.clockReads + 1)
  {
    (clock(st.clockReads) - st.sliceStart >= SliceLength, st.(clockReads := st.clockReads + 1))
  }

  // ---------------------------------------------------------------- loop

  /** Why the loop did not return: an executor threw (the exception leaves
      `loop` and `work`), or the fuel bounding the executor loop ran out. */
  datatype LoopError = Threw(error: JsError) | OutOfFuel

  /** The state `loop()` leaves, and the ids of the tasks whose executors
      it called, one entry per call. */
  datatype LoopResult = LoopResult(state: SchedulerState, ran: seq<nat>)

  /** The executor loop of line 166. `whileEnded` selects the condition:
      as written, `!!executor && this.ifSliceEnd()` (true), or the
      evidently intended `!!executor && !this.ifSliceEnd()` (false). Each
      call uses one unit of fuel. Returns the state, the final executor
      value, the extended run log and the remaining fuel. */
  function RunExecutor(st: SchedulerState, clock: nat -> int, run: nat -> Result<Value, JsError>,
                       whileEnded: bool, executor: Value, id: nat, fuel: nat, ran: seq<nat>)
    : (r: Result<(SchedulerState, Value, seq<nat>, nat), LoopError>)
    ensures r.Success? ==> r.value.0 == st.(clockReads := r.value.0.clockReads) && r.value.0.clockReads >= st.clockReads
    ensures r.Success? ==> r.value.3 <= fuel && |r.value.2| == |ran| + (fuel - r.value.3)
    ensures r.Success? ==> ran <= r.value.2
    ensures r.Success? && !whileEnded && Truthy(r.value.1) ==>
              r.value.0.clockReads > st.clockReads
              && clock(r.value.0.clockReads - 1) - st.sliceStart >= SliceLength
    decreases fuel
  {
    if !Truthy(executor) then Success((st, executor, ran, fuel))
    else
      var (ended, st1) := IfSliceEnd(st, clock);
      var go := if whileEnded then ended else !ended;
      if !go then Success((st1, executor, ran, fuel))
      else if fuel == 0 then Failure(OutOfFuel)
      else if !IsFunction(executor) then Failure(Threw(TypeError("executor is not a function")))
      else
        match run(executor.fid)
        case Failure(e) => Failure(Threw(e))
        case Success(next) => RunExecutor(st1, clock, run, whileEnded, next, id, fuel - 1, ran + [id])
  }

  /** What one iteration of the loop on a function task leads to: `loop()`
      returns, or the task is done and the loop goes on. */
  datatype Step =
    | Stop(result: LoopResult)
    | Continue(state: SchedulerState, fuel: nat, ran: seq<nat>)

  /** Replacing the executor of the ready queue's root keeps it a heap:
      the key, `deadline`, is unchanged. */
  lemma SetRootExecutorKeepsOrder(ready: seq<Task>, executor: Value)
    requires ready != []
    ensures HeapOrdered(ready, DeadlineOf) ==> HeapOrdered(ready[0 := ready[0].(executor := executor)], DeadlineOf)
  {
    var ready' := ready[0 := ready[0].(executor := executor)];
    if HeapOrdered(ready, DeadlineOf) {
      forall i | 0 < i < |ready'| ensures ParentOk(ready', DeadlineOf, i) {
        assert ParentOk(ready, DeadlineOf, i);
      }
    }
  }

  /** Lines 165-176 for the task at the root of the ready queue, once the
      slice check of line 161 has passed: run the executor, then either
      store what it returned in the task and return from `loop()` (the
      executor is still truthy, or the slice has ended), or wake sleeping
      tasks and pop the ready queue. */
  function RunTask(st: SchedulerState, clock: nat -> int, run: nat -> Result<Value, JsError>,
                   whileEnded: bool, fuel: nat, ran: seq<nat>): (r: Result<Step, LoopError>)
    requires st.ready != []
    ensures r.Success? && r.value.Stop? ==> ran <= r.value.result.ran
    ensures r.Success? && r.value.Stop? ==> SameSlice(st, r.value.result.state)
    ensures r.Success? && r.value.Continue? ==> SameSlice(st, r.value.state)
    ensures r.Success? && r.value.Stop? && QueuesOrdered(st) ==> QueuesOrdered(r.value.result.state)
    ensures r.Success? && r.value.Continue? ==>
              ran <= r.value.ran && |r.value.state.sleep| + |r.value.state.ready| < |st.sleep| + |st.ready|
    ensures r.Success? && r.value.Continue? && QueuesOrdered(st) ==> QueuesOrdered(r.value.state)
  {
    var task := st.ready[0];
    var (st2, executor, ran2, fuel2) :- RunExecutor(st, clock, run, whileEnded, task.executor, task.id, fuel, ran);
    var (stop, st3) := if Truthy(executor) then (true, st2) else IfSliceEnd(st2, clock);
    if stop then
      // `currentTask.executor = executor`: the task is still the root of the ready queue.
      SetRootExecutorKeepsOrder(st3.ready, executor);
      var ready := st3.ready[0 := st3.ready[0].(executor := executor)];
      Success(Stop(LoopResult(WakeState(st3.(ready := ready)), ran2)))
    else
      var st4 := WakeState(st3);
      Success(Continue(st4.(ready := Pop(st4.ready, DeadlineOf).0), fuel2, ran2))
  }

  /** The `while (currentTask)` loop of `loop()`, from a fresh peek of the
      ready queue. */
  function LoopFrom(st: SchedulerState, clock: nat -> int, run: nat -> Result<Value, JsError>,
                    whileEnded: bool, fuel: nat, ran: seq<nat>): (r: Result<LoopResult, LoopError>)
    ensures r.Success? ==> ran <= r.value.ran
    ensures r.Success? ==> SameSlice(st, r.value.state)
    ensures r.Success? && QueuesOrdered(st) ==> QueuesOrdered(r.value.state)
    decreases |st.sleep| + |st.ready|
  {
    if st.ready == [] then Success(LoopResult(st, ran))
    else
      var (ended, st1) := IfSliceEnd(st, clock);
      if ended then Success(LoopResult(st1, ran))
      else if IsFunction(st.ready[0].executor) then
        var step :- RunTask(st1, clock, run, whileEnded, fuel, ran);
        match step
        case Stop(result) => Success(result)
        case Continue(st2, fuel2, ran2) => LoopFrom(st2, clock, run, whileEnded, fuel2, ran2)
      else
        LoopFrom(st1.(ready := Pop(st1.ready, DeadlineOf).0), clock, run, whileEnded, fuel, ran)
  }

  /** `loop()` with the inverted executor condition of Scheduler.ts:166 as
      written. Ready tasks are still popped with the corrected heap `Pop`,
      not `PopAsWritten`, so the heap's own defect does not show here. */
  function LoopAsWritten(st: SchedulerState, clock: nat -> int, run: nat -> Result<Value, JsError>,
                         fuel: nat): (r: Result<LoopResult, LoopError>)
    ensures r.Success? && QueuesOrdered(st) ==> QueuesOrdered(r.value.state)
  {
    LoopFrom(st, clock, run, true, fuel, [])
  }

  /** `loop()` with the executor loop running while the slice lasts. */
  function Loop(st: SchedulerState, clock: nat -> int, run: nat -> Result<Value, JsError>,
                fuel: nat): (r: Result<LoopResult, LoopError>)
    ensures r.Success? ==> SameSlice(st, r.value.state)
    ensures r.Success? && QueuesOrdered(st) ==> QueuesOrdered(r.value.state)
  {
    LoopFrom(st, clock, run, false, fuel, [])
  }

  /** The loop stays within one slice: it reads the clock, but neither
      restarts the slice nor moves `currentTime`. */
  predicate SameSlice(st: SchedulerState, r: SchedulerState) {
    r.sliceStart == st.sliceStart && r.currentTime == st.currentTime && r.clockReads >= st.clockReads
  }

  /** The start of `work()`: `currentTime` and the slice start take a fresh
      clock reading, and the sleeping tasks due by then are woken, so none
      is left asleep. */
  function StartSlice(st: SchedulerState, clock: nat -> int): (r: SchedulerState)
    ensures r.currentTime == clock(st.clockReads) && r.sliceStart == clock(st.clockReads)
    ensures r.clockReads == st.clockReads + 1 && r.nextId == st.nextId
    ensures QueuesOrdered(st) ==> QueuesOrdered(r)
    ensures QueuesOrdered(st) ==> NothingDue(r.sleep, r.currentTime)
  {
    var now := clock(st.clockReads);
    WakeLeavesNothingDueIfOrdered(st.sleep, st.ready, now);
    var w := Wake(st.sleep, st.ready, now);
    st.(currentTime := now, sliceStart := now, clockReads := st.clockReads + 1, sleep := w.0, ready := w.1)
  }

  /** The scheduling part of `work()`: a new slice starts now, sleeping
      tasks that are due are woken, and the loop runs within that slice.
      Re-arming the next slice is not modelled. */
  function Work(st: SchedulerState, clock: nat -> int, run: nat -> Result<Value, JsError>,
                fuel: nat): (r: Result<LoopResult, LoopError>)
    ensures r.Success? ==> r.value.state.sliceStart == clock(st.clockReads) && r.value.state.clockReads > st.clockReads
    ensures r.Success? && QueuesOrdered(st) ==> QueuesOrdered(r.value.state)
  {
    Loop(StartSlice(st, clock), clock, run, fuel)
  }

  /** The slice never ends while the loop runs. */
  ghost predicate SliceLasts(st: SchedulerState, clock: nat -> int) {
    forall k: nat :: k >= st.clockReads ==> clock(k) - st.sliceStart < SliceLength
  }

  /** When the clock shows the slice has ended, the loop returns at once:
      the queues are untouched and no executor runs. */
  lemma LoopReturnsWhenSliceEnded(st: SchedulerState, clock: nat -> int, run: nat -> Result<Value, JsError>,
                                  whileEnded: bool, fuel: nat)
    requires st.ready != []
    requires clock(st.clockReads) - st.sliceStart >= SliceLength
    ensures LoopFrom(st, clock, run, whileEnded, fuel, []) == Success(LoopResult(st.(clockReads := st.clockReads + 1), []))
  {
  }

  /** A ready task whose executor is not a function is popped without being
      run, and the loop carries on with the next task. */
  lemma LoopDropsNonFunction(st: SchedulerState, clock: nat -> int, run: nat -> Result<Value, JsError>,
                             whileEnded: bool, fuel: nat, ran: seq<nat>)
    requires st.ready != [] && !IsFunction(st.ready[0].executor)
    requires clock(st.clockReads) - st.sliceStart < SliceLength
    ensures LoopFrom(st, clock, run, whileEnded, fuel, ran)
            == LoopFrom(st.(ready := Pop(st.ready, DeadlineOf).0, clockReads := st.clockReads + 1), clock, run, whileEnded, fuel, ran)
  {
    var (ended, st1) := IfSliceEnd(st, clock);
    assert !ended;
    assert st1.(ready := Pop(st1.ready, DeadlineOf).0) == st.(ready := Pop(st.ready, DeadlineOf).0, clockReads := st.clockReads + 1);
  }

  /** As written, the executor loop does not call a function executor while
      the slice lasts, so the task stays where it is and `loop()` returns. */
  lemma RunTaskAsWrittenStops(st: SchedulerState, clock: nat -> int, run: nat -> Result<Value, JsError>,
                              fuel: nat, ran: seq<nat>)
    requires st.ready != [] && IsFunction(st.ready[0].executor)
    requires SliceLasts(st, clock)
    ensures var r := RunTask(st, clock, run, true, fuel, ran);
            r.Success? && r.value.Stop? && r.value.result.ran == ran && r.value.result.state.ready != []
  {
    var task := st.ready[0];
    assert clock(st.clockReads) - st.sliceStart < SliceLength;
    var st1 := st.(clockReads := st.clockReads + 1);
    assert RunExecutor(st, clock, run, true, task.executor, task.id, fuel, ran) == Success((st1, task.executor, ran, fuel));
  }

  /** As written, a task with a function executor never runs while the
      slice lasts: the loop stops at the first such task, leaving it in the
      ready queue, and has called nothing. */
  lemma {:induction false} LoopAsWrittenNeverRuns(st: SchedulerState, clock: nat -> int,
                                                  run: nat -> Result<Value, JsError>, fuel: nat, ran: seq<nat>)
    requires SliceLasts(st, clock)
    ensures LoopFrom(st, clock, run, true, fuel, ran).Success?
    ensures LoopFrom(st, clock, run, true, fuel, ran).value.ran == ran
    ensures st.ready != [] && IsFunction(st.ready[0].executor) ==>
              LoopFrom(st, clock, run, true, fuel, ran).value.state.ready != []
    decreases |st.sleep| + |st.ready|
  {
    if st.ready != [] {
      var (ended, st1) := IfSliceEnd(st, clock);
      assert !ended;
      if IsFunction(st.ready[0].executor) {
        RunTaskAsWrittenStops(st1, clock, run, fuel, ran);
      } else {
        var st2 := st1.(ready := Pop(st1.ready, DeadlineOf).0);
        LoopAsWrittenNeverRuns(st2, clock, run, fuel, ran);
      }
    }
  }

  /** The executor loop with the intended condition stops, while the slice
      lasts, only once the executor is falsy. */
  lemma RunExecutorFinishes(st: SchedulerState, clock: nat -> int, run: nat -> Result<Value, JsError>,
                            executor: Value, id: nat, fuel: nat, ran: seq<nat>)
    requires SliceLasts(st, clock)
    ensures var r := RunExecutor(st, clock, run, false, executor, id, fuel, ran);
            r.Success? ==> !Truthy(r.value.1) && SliceLasts(r.value.0, clock)
  {
  }

  /** While the slice lasts, a function executor is called at least once,
      and that first call is logged right after `ran`. */
  lemma RunExecutorFirstCall(st: SchedulerState, clock: nat -> int, run: nat -> Result<Value, JsError>,
                             executor: Value, id: nat, fuel: nat, ran: seq<nat>)
    requires SliceLasts(st, clock)
    requires IsFunction(executor)
    ensures var r := RunExecutor(st, clock, run, false, executor, id, fuel, ran);
            r.Success? ==> |r.value.2| > |ran| && r.value.2[|ran|] == id
  {
    var r := RunExecutor(st, clock, run, false, executor, id, fuel, ran);
    if r.Success? {
      assert clock(st.clockReads) - st.sliceStart < SliceLength;
      var st1 := st.(clockReads := st.clockReads + 1);
      var next := run(executor.fid).value;
      assert r == RunExecutor(st1, clock, run, false, next, id, fuel - 1, ran + [id]);
      assert (ran + [id])[|ran|] == id;
    }
  }

  /** With the intended condition and while the slice lasts, a function
      task is run and then popped: the loop goes on. */
  lemma RunTaskRuns(st: SchedulerState, clock: nat -> int, run: nat -> Result<Value, JsError>,
                    fuel: nat, ran: seq<nat>)
    requires st.ready != [] && IsFunction(st.ready[0].executor)
    requires SliceLasts(st, clock)
    ensures var r := RunTask(st, clock, run, false, fuel, ran);
            r.Success? ==> r.value.Continue? && st.ready[0].id in r.value.ran && SliceLasts(r.value.state, clock)
  {
    var task := st.ready[0];
    var d := RunExecutor(st, clock, run, false, task.executor, task.id, fuel, ran);
    RunExecutorFinishes(st, clock, run, task.executor, task.id, fuel, ran);
    RunExecutorFirstCall(st, clock, run, task.executor, task.id, fuel, ran);
    if d.Success? {
      var ran2 := d.value.2;
      assert ran2[|ran|] == task.id;
    }
  }

  /** With the intended condition, a loop that returns while the slice
      lasts has emptied the ready queue, and the task that was on top with
      a function executor has been run. */
  lemma {:induction false} LoopDrainsWhileSliceLasts(st: SchedulerState, clock: nat -> int,
                                                     run: nat -> Result<Value, JsError>, fuel: nat, ran: seq<nat>)
    requires SliceLasts(st, clock)
    ensures var r := LoopFrom(st, clock, run, false, fuel, ran);
            r.Success? ==> r.value.state.ready == []
    ensures var r := LoopFrom(st, clock, run, false, fuel, ran);
            r.Success? && st.ready != [] && IsFunction(st.ready[0].executor) ==> st.ready[0].id in r.value.ran
    decreases |st.sleep| + |st.ready|
  {
    if st.ready != [] {
      var (ended, st1) := IfSliceEnd(st, clock);
      assert !ended;
      if IsFunction(st.ready[0].executor) {
        RunTaskRuns(st1, clock, run, fuel, ran);
        var step := RunTask(st1, clock, run, false, fuel, ran);
        if step.Success? {
          var Continue(st2, fuel2, ran2) := step.value;
          LoopDrainsWhileSliceLasts(st2, clock, run, fuel2, ran2);
        }
      } else {
        var st2 := st1.(ready := Pop(st1.ready, DeadlineOf).0);
        LoopDrainsWhileSliceLasts(st2, clock, run, fuel, ran);
      }
    }
  }
}
