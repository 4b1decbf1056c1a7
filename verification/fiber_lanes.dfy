/** The lane model (packages/react-reconciler/src/fiberLanes.ts): a set of
    pending priorities is a bit set, one bit ("lane") per priority, and a
    lower bit is a more urgent lane. Lanes are `bv32` because JavaScript's
    bitwise operators work on 32-bit two's-complement integers. */
module FiberLanes {
  import opened Priorities

  type Lanes = bv32

  const SyncLane: Lanes := 1
  const InputContinuousLane: Lanes := 2
  const DefaultLane: Lanes := 4
  const TransitionLane: Lanes := 8
  const IdleLane: Lanes := 16
  const NoLane: Lanes := 0
  const NoLanes: Lanes := 0

  /** `x` has exactly one bit set. */
  predicate IsSingleBit(x: bv32) {
    x != 0 && x & (x - 1) == 0
  }

  /** `(set & subset) === subset`. */
  predicate IsSubsetOfLanes(subset: Lanes, superset: Lanes) {
    superset & subset == subset
  }

  /** The fold `merge = merge | lane` over `lanes`, starting from `acc`. */
  function MergeFrom(acc: Lanes, lanes: seq<Lanes>): (r: Lanes)
    ensures IsSubsetOfLanes(acc, r)
    decreases |lanes|
  {
    if lanes == [] then acc
    else
      var r := MergeFrom(acc | lanes[0], lanes[1..]);
      OrKeepsOperands(acc, lanes[0]);
      SubsetTransitive(acc, acc | lanes[0], r);
      r
  }

  /** Every lane folded in is a subset of the fold. */
  lemma {:induction false} MergeFromContains(acc: Lanes, lanes: seq<Lanes>, i: nat)
    requires i < |lanes|
    ensures IsSubsetOfLanes(lanes[i], MergeFrom(acc, lanes))
    decreases |lanes|
  {
    OrKeepsOperands(acc, lanes[0]);
    if i == 0 {
      SubsetTransitive(lanes[0], acc | lanes[0], MergeFrom(acc | lanes[0], lanes[1..]));
    } else {
      MergeFromContains(acc | lanes[0], lanes[1..], i - 1);
    }
  }

  /** `mergeLanes(...lanes)`: every argument is a subset of the result, and
      no arguments give `NoLanes`. */
  function MergeLanes(lanes: seq<Lanes>): (r: Lanes)
    ensures lanes == [] ==> r == NoLanes
    ensures forall i :: 0 <= i < |lanes| ==> IsSubsetOfLanes(lanes[i], r)
  {
    var r := MergeFrom(0, lanes);
    forall i | 0 <= i < |lanes|
      ensures IsSubsetOfLanes(lanes[i], r)
    {
      MergeFromContains(0, lanes, i);
    }
    r
  }

  /** The fold adds no bit that is not in `acc` or one of the lanes: it is
      below every common upper bound. */
  lemma {:induction false} MergeFromIsLeast(acc: Lanes, lanes: seq<Lanes>, u: Lanes)
    requires IsSubsetOfLanes(acc, u)
    requires forall i :: 0 <= i < |lanes| ==> IsSubsetOfLanes(lanes[i], u)
    ensures IsSubsetOfLanes(MergeFrom(acc, lanes), u)
    decreases |lanes|
  {
    if lanes != [] {
      OrIsLeast(acc, lanes[0], u);
      assert forall i :: 0 <= i < |lanes[1..]| ==> lanes[1..][i] == lanes[i + 1];
      MergeFromIsLeast(acc | lanes[0], lanes[1..], u);
    }
  }

  /** `mergeLanes` is the least upper bound of its arguments: a lane set
      containing every argument contains the merge. */
  lemma MergeLanesIsLeast(lanes: seq<Lanes>, u: Lanes)
    requires forall i :: 0 <= i < |lanes| ==> IsSubsetOfLanes(lanes[i], u)
    ensures IsSubsetOfLanes(MergeLanes(lanes), u)
  {
    SubsetLaws(u, u, u);
    MergeFromIsLeast(0, lanes, u);
  }

  /** Merging two lane sets is bitwise or. */
  lemma MergeTwo(a: Lanes, b: Lanes)
    ensures MergeLanes([a, b]) == a | b
  {
    var r := MergeLanes([a, b]);
    assert IsSubsetOfLanes([a, b][0], r) && IsSubsetOfLanes([a, b][1], r);
    OrKeepsOperands(a, b);
    MergeLanesIsLeast([a, b], a | b);
    OrIsLeast(a, b, r);
    SubsetAntisymmetric(r, a | b);
  }

  lemma OrKeepsOperands(a: Lanes, b: Lanes)
    ensures IsSubsetOfLanes(a, a | b) && IsSubsetOfLanes(b, a | b)
  {
  }

  lemma OrIsLeast(a: Lanes, b: Lanes, u: Lanes)
    requires IsSubsetOfLanes(a, u) && IsSubsetOfLanes(b, u)
    ensures IsSubsetOfLanes(a | b, u)
  {
  }

  lemma SubsetTransitive(a: Lanes, b: Lanes, c: Lanes)
    requires IsSubsetOfLanes(a, b) && IsSubsetOfLanes(b, c)
    ensures IsSubsetOfLanes(a, c)
  {
  }

  lemma SubsetAntisymmetric(a: Lanes, b: Lanes)
    requires IsSubsetOfLanes(a, b) && IsSubsetOfLanes(b, a)
    ensures a == b
  {
  }

  /** `getHighestPriorityLane(lanes)`, i.e. `lanes & -lanes`: the lowest set
      bit. */
  function GetHighestPriorityLane(lanes: Lanes): (r: Lanes)
    ensures lanes == NoLanes <==> r == NoLane
    ensures lanes != NoLanes ==> IsSingleBit(r)
    ensures IsSubsetOfLanes(r, lanes)
    ensures lanes & (r - 1) == 0
  {
    lanes & -lanes
  }

  /** Subset is reflexive, the empty set is below every set, and `a` is a
      subset of `b` exactly when `a` has no bit outside `b`. */
  lemma SubsetLaws(a: Lanes, b: Lanes, c: Lanes)
    ensures IsSubsetOfLanes(a, a)
    ensures IsSubsetOfLanes(NoLanes, a)
    ensures IsSubsetOfLanes(a, b) <==> a & !b == 0
  {
    SubsetReflexive(a);
    SubsetOfComplement(a, b);
  }

  lemma SubsetReflexive(a: Lanes)
    ensures IsSubsetOfLanes(a, a) && IsSubsetOfLanes(NoLanes, a)
  {
  }

  lemma SubsetOfComplement(a: Lanes, b: Lanes)
    ensures IsSubsetOfLanes(a, b) <==> a & !b == 0
  {
  }

  /** `markFiberFinished(root, lane)`: `root.pendingLanes &= ~lane`. The
      bits of `lane` are cleared and every other bit is kept. */
  function MarkFiberFinished(pendingLanes: Lanes, lane: Lanes): (r: Lanes)
    ensures r & lane == 0
    ensures r & !lane == pendingLanes & !lane
    ensures IsSubsetOfLanes(r, pendingLanes)
  {
    ClearDropsLane(pendingLanes, lane);
    ClearKeepsOthers(pendingLanes, lane);
    ClearIsSubset(pendingLanes, lane);
    pendingLanes & !lane
  }

  lemma ClearDropsLane(p: Lanes, l: Lanes)
    ensures (p & !l) & l == 0
  {
  }

  lemma ClearKeepsOthers(p: Lanes, l: Lanes)
    ensures (p & !l) & !l == p & !l
  {
  }

  lemma ClearIsSubset(p: Lanes, l: Lanes)
    ensures IsSubsetOfLanes(p & !l, p)
  {
  }

  /** `lanesToSchedulerPriority(lanes)`: the priority of the most urgent
      lane in the set. */
  function LanesToSchedulerPriority(lanes: Lanes): (p: Priority)
    ensures p == ImmediatePriority <==> lanes & SyncLane != 0
    ensures p == UserBlockingPriority <==> lanes & SyncLane == 0 && lanes & InputContinuousLane != 0
    ensures p == NormalPriority <==> lanes & (SyncLane | InputContinuousLane) == 0 && lanes & DefaultLane != 0
    ensures p == IdlePriority <==> lanes & (SyncLane | InputContinuousLane | DefaultLane) == 0
  {
    var lane := GetHighestPriorityLane(lanes);
    if lane == SyncLane then ImmediatePriority
    else if lane == InputContinuousLane then UserBlockingPriority
    else if lane == DefaultLane then NormalPriority
    else IdlePriority
  }

  /** `schedulerPriorityToLane(priority)`. */
  function SchedulerPriorityToLane(priority: Priority): (lane: Lanes)
    ensures lane == SyncLane <==> priority == ImmediatePriority
    ensures lane == InputContinuousLane <==> priority == UserBlockingPriority
    ensures lane == DefaultLane <==> priority == NormalPriority
    ensures lane == NoLane <==> !(priority in {ImmediatePriority, UserBlockingPriority, NormalPriority})
  {
    if priority == ImmediatePriority then SyncLane
    else if priority == UserBlockingPriority then InputContinuousLane
    else if priority == NormalPriority then DefaultLane
    else NoLane
  }

  /** The sync, input-continuous and default lanes survive a round trip
      through scheduler priorities, and so do the three priorities they map
      to; the transition and idle lanes collapse to `NoLane`. */
  lemma PriorityRoundTrip(lane: Lanes, p: Priority)
    ensures lane in {SyncLane, InputContinuousLane, DefaultLane} ==>
              SchedulerPriorityToLane(LanesToSchedulerPriority(lane)) == lane
    ensures p in {ImmediatePriority, UserBlockingPriority, NormalPriority} ==>
              LanesToSchedulerPriority(SchedulerPriorityToLane(p)) == p
    ensures lane in {TransitionLane, IdleLane} ==>
              SchedulerPriorityToLane(LanesToSchedulerPriority(lane)) == NoLane
  {
  }
}
