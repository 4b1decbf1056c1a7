/** Tracking of thenables passed to `use`
    (packages/react-reconciler/src/thenbale.ts).

    A thenable's `status` field, written on the thenable object itself, is
    kept here in a store keyed by the thenable's id; `suspendedThenable` is
    the one slot the module keeps. When the thenable settles is outside the
    model: `Settle` is what the callbacks given to `then` do when it does. */
module Thenables {
  import opened Wrappers
  import opened JsValues

  /** The `status` of a thenable: absent until first used (or not a
      string), then 'pending', then 'fulfilled' with a value or 'rejected'
      with a reason. */
  datatype Status = Untracked | Pending | Fulfilled(value: Value) | Rejected(reason: Value)

  datatype ThenableState = ThenableState(status: map<nat, Status>, suspended: Option<nat>)

  function StatusOf(s: ThenableState, tid: nat): Status {
    if tid in s.status then s.status[tid] else Untracked
  }

  /** The error `use` throws to suspend. */
  const SuspenseException: JsError := Error("Suspense trackUsedThenable throw error")

  /** `getThenableValueOrThrowReasonOrTrackThenable(thenable)`: the value
      of a fulfilled thenable, its reason thrown for a rejected one; any
      other thenable is recorded as suspended (and an untracked one becomes
      pending) and `SuspenseException` is thrown. */
  function Use(s: ThenableState, tid: nat): (r: (Result<Value, JsError>, ThenableState))
    ensures StatusOf(s, tid).Fulfilled? ==> r == (Success(StatusOf(s, tid).value), s)
    ensures StatusOf(s, tid).Rejected? ==> r == (Failure(Thrown(StatusOf(s, tid).reason)), s)
    ensures StatusOf(s, tid) == Pending ==> r == (Failure(SuspenseException), s.(suspended := Some(tid)))
    ensures StatusOf(s, tid) == Untracked ==>
              r.0 == Failure(SuspenseException) && r.1.suspended == Some(tid)
              && StatusOf(r.1, tid) == Pending
              && forall t :: t != tid ==> StatusOf(r.1, t) == StatusOf(s, t)
  {
    match StatusOf(s, tid)
    case Fulfilled(v) => (Success(v), s)
    case Rejected(reason) => (Failure(Thrown(reason)), s)
    case Pending => (Failure(SuspenseException), s.(suspended := Some(tid)))
    case Untracked => (Failure(SuspenseException), ThenableState(s.status[tid := Pending], Some(tid)))
  }

  /** What the callbacks given to `then` do when the thenable settles with
      `outcome` (a `Fulfilled` or `Rejected` status): nothing unless it is
      still pending. */
  function Settle(s: ThenableState, tid: nat, outcome: Status): (r: ThenableState)
    requires outcome.Fulfilled? || outcome.Rejected?
    ensures StatusOf(s, tid) == Pending ==> StatusOf(r, tid) == outcome
    ensures StatusOf(s, tid) != Pending ==> r == s
    ensures forall t :: t != tid ==> StatusOf(r, t) == StatusOf(s, t)
    ensures r.suspended == s.suspended
  {
    if StatusOf(s, tid) == Pending then s.(status := s.status[tid := outcome]) else s
  }

  /** `getSuspendedThenable()`: hands out the recorded thenable and clears
      the slot; throws when none is recorded. */
  function GetSuspendedThenable(s: ThenableState): (r: Result<(nat, ThenableState), JsError>)
    ensures r.Failure? <==> s.suspended.None?
    ensures r.Success? ==> r.value == (s.suspended.value, s.(suspended := None))
  {
    match s.suspended
    case None => Failure(Error("getSuspendedThenable: no suspended thenable"))
    case Some(tid) => Success((tid, s.(suspended := None)))
  }

  /** The first settlement wins: once settled, a later settlement either
      way changes nothing. */
  lemma FirstSettlementWins(s: ThenableState, tid: nat, first: Status, second: Status)
    requires first.Fulfilled? || first.Rejected?
    requires second.Fulfilled? || second.Rejected?
    requires StatusOf(s, tid) == Pending
    ensures var s1 := Settle(s, tid, first);
            Settle(s1, tid, second) == s1 && StatusOf(s1, tid) == first
  {
  }

  /** The life of a thenable under `use`: the first use suspends and
      records it, the renderer takes it back, it settles, and the next use
      returns its value or throws its reason. */
  lemma UseSettleUse(s: ThenableState, tid: nat, outcome: Status)
    requires StatusOf(s, tid) == Untracked
    requires outcome.Fulfilled? || outcome.Rejected?
    ensures var (r1, s1) := Use(s, tid);
            var taken := GetSuspendedThenable(s1);
            && r1 == Failure(SuspenseException)
            && taken.Success? && taken.value.0 == tid
            && var s2 := Settle(taken.value.1, tid, outcome);
               var (r3, s3) := Use(s2, tid);
               && s3 == s2
               && (outcome.Fulfilled? ==> r3 == Success(outcome.value))
               && (outcome.Rejected? ==> r3 == Failure(Thrown(outcome.reason)))
  {
  }

  /** Using a thenable that has not settled suspends again without
      touching its status. */
  lemma UseWhilePending(s: ThenableState, tid: nat)
    requires StatusOf(s, tid) == Pending
    ensures var (r, s1) := Use(s, tid);
            r == Failure(SuspenseException) && s1.status == s.status && s1.suspended == Some(tid)
  {
  }
}
