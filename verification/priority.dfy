/** The scheduler's task priorities and the priority-to-timeout table
    (packages/scheduler/src/Priority.ts). */
module Priorities {
  import opened Wrappers

  datatype Priority =
    | NoPriority
    | ImmediatePriority
    | UserBlockingPriority
    | NormalPriority
    | LowPriority
    | IdlePriority

  /** 2^30 - 1, the largest 31-bit signed integer V8 keeps unboxed. */
  const MaxSigned31BitInt: int := 1073741823

  /** The numeric value of each enum member. */
  function Ordinal(p: Priority): (n: nat)
    ensures n <= 5
    ensures FromOrdinal(n) == Some(p)
  {
    match p
    case NoPriority => 0
    case ImmediatePriority => 1
    case UserBlockingPriority => 2
    case NormalPriority => 3
    case LowPriority => 4
    case IdlePriority => 5
  }

  /** The enum member with value `n`, if there is one. */
  function FromOrdinal(n: int): (r: Option<Priority>)
    ensures r.Some? <==> 0 <= n <= 5
  {
    if n == 0 then Some(NoPriority)
    else if n == 1 then Some(ImmediatePriority)
    else if n == 2 then Some(UserBlockingPriority)
    else if n == 3 then Some(NormalPriority)
    else if n == 4 then Some(LowPriority)
    else if n == 5 then Some(IdlePriority)
    else None
  }

  /** `Timeouts[p]`: how long after its start time a task of priority `p`
      may wait before it is overdue. */
  function Timeout(p: Priority): (t: int)
    ensures t < 0 <==> p == ImmediatePriority
    ensures t <= MaxSigned31BitInt
    ensures t == MaxSigned31BitInt <==> p == IdlePriority
  {
    match p
    case NoPriority => 5000
    case ImmediatePriority => -1
    case UserBlockingPriority => 250
    case NormalPriority => 5000
    case LowPriority => 10000
    case IdlePriority => MaxSigned31BitInt
  }

  /** From Immediate to Idle, a less urgent priority never has a shorter
      timeout than a more urgent one: the timeout is strictly increasing in
      the enum value. */
  lemma TimeoutsIncrease(p: Priority, q: Priority)
    requires 1 <= Ordinal(p) < Ordinal(q)
    ensures Timeout(p) < Timeout(q)
  {
  }
}
