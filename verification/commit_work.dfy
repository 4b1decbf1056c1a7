/** The mutation and layout passes of the commit phase
    (packages/react-reconciler/src/commitWork.ts: `commitEffects`,
    `commitMutationEffectsOnFiber`, `commitLayoutEffectsOnFiber`,
    `commitPlacement`, `hideOrUnhideAllChildren`,
    `runCallbackOnAllMaxRealSubtreeRoots`).

    `commitEffects` is the walk of `TreeWalk` with nothing to do on the way
    down, a descent only into subtrees whose `subtreeFlags` meet the pass's
    mask, and the pass's work on each fiber on the way up. */
module CommitWork {
  import opened Wrappers
  import opened JsValues
  import opened FiberFlags
  import opened Fibers
  import opened NoopHost
  import opened TreeWalk
  import opened CompleteWork
  import opened CommitLog
  import opened CommitHost
  import opened CommitDeletion

  // ---------------------------------------------------------------- commitPlacement

  /** `commitPlacement(finishedWork)`: the fiber's topmost host nodes go
      into the nearest host parent's node, each before the first stable
      host node that follows the fiber; nothing happens without a host
      parent. */
  function CommitPlacement(z: Zipper, h: Host): (r: Result<Host, JsError>)
    ensures GetHostParent(z.path).None? ==> r == Success(h)
    ensures GetHostParent(z.path).Some? ==>
              r == PlaceAll(TopHosts(z.focus), GetHostParent(z.path).value, GetHostSibling(z), h)
  {
    var hostParent := GetHostParent(z.path);
    var hostSibling := GetHostSibling(z);
    if hostParent.Some? then
      InsertOrAppend(z.focus, hostParent.value, hostSibling, h)
    else Success(h)
  }

  // ---------------------------------------------------------------- hideOrUnhideAllChildren

  /** An Offscreen fiber whose `pendingProps.mode` is 'hidden'. */
  predicate HiddenOffscreen(f: Fiber) {
    f.tag == OffscreenComponent && GetProp(f.pendingProps, "mode") == Success(Str("hidden"))
  }

  /** The callback of `hideOrUnhideAllChildren` on one host fiber. A text
      fiber being shown passes its `memoizedProps.content`, which throws
      without props. */
  function Toggle(f: Fiber, hidden: bool, st: CommitState): (r: Result<CommitState, JsError>)
    requires IsHost(f)
    ensures r.Failure? <==> f.tag == HostText && !hidden && (f.memoizedProps == Null || f.memoizedProps == Undefined)
    ensures r.Success? ==> r.value == st.(calls := st.calls + [ToggleCall(f, hidden)])
  {
    if f.tag == HostComponent then
      Success(st.(calls := st.calls + [if hidden then HideInstance(f.stateNode) else UnhideInstance(f.stateNode)]))
    else if hidden then Success(st.(calls := st.calls + [HideTextInstance(f.stateNode)]))
    else
      var content :- GetProp(f.memoizedProps, "content");
      Success(st.(calls := st.calls + [UnhideTextInstance(f.stateNode, content)]))
  }

  /** The call made on a host fiber whose props can be read. */
  function ToggleCall(f: Fiber, hidden: bool): Call {
    if f.tag == HostComponent then (if hidden then HideInstance(f.stateNode) else UnhideInstance(f.stateNode))
    else if hidden then HideTextInstance(f.stateNode)
    else UnhideTextInstance(f.stateNode, if f.memoizedProps == Null || f.memoizedProps == Undefined then Undefined else Prop(f.memoizedProps, "content"))
  }

  /** A node below the toggled fiber: a host fiber is called back and not
      entered; an Offscreen fiber in hidden mode is skipped (reading its
      `pendingProps.mode` throws without props); anything else is
      entered. */
  function ToggleBelow(t: FTree, hidden: bool, st: CommitState): Result<CommitState, JsError>
    decreases t, 1
  {
    if IsHost(t.fiber) then Toggle(t.fiber, hidden, st)
    else if t.fiber.tag == OffscreenComponent then
      var mode :- GetProp(t.fiber.pendingProps, "mode");
      if mode == Str("hidden") then Success(st) else ToggleAll(t.kids, hidden, st)
    else ToggleAll(t.kids, hidden, st)
  }

  function ToggleAll(ts: seq<FTree>, hidden: bool, st: CommitState): Result<CommitState, JsError>
    decreases ts, 0
  {
    if ts == [] then Success(st)
    else
      var st1 :- ToggleBelow(ts[0], hidden, st);
      ToggleAll(ts[1..], hidden, st1)
  }

  /** `runCallbackOnAllMaxRealSubtreeRoots(fiber, callback)` with the
      callback of `hideOrUnhideAllChildren`, as written: the toggled fiber
      is never skipped, and when it has no child the walk goes on to its
      sibling (`hasSibling`), leaves the subtree and throws once it climbs
      past the root. */
  function HideOrUnhideAllChildrenAsWritten(t: FTree, hasSibling: bool, hidden: bool, st: CommitState): (r: Result<CommitState, JsError>)
    ensures !IsHost(t.fiber) && t.kids == [] && hasSibling && ModeReadable(t.fiber) ==> r.Failure?
    ensures !(t.kids == [] && hasSibling) ==> r == HideOrUnhideAllChildren(t, hidden, st)
  {
    if IsHost(t.fiber) then Toggle(t.fiber, hidden, st)
    else
      var _ :- if t.fiber.tag == OffscreenComponent then GetProp(t.fiber.pendingProps, "mode") else Success(Undefined);
      if t.kids != [] then ToggleAll(t.kids, hidden, st)
      else if hasSibling then Failure(TypeError("Cannot read properties of null (reading 'sibling')"))
      else Success(st)
  }

  /** `hideOrUnhideAllChildren` with the walk kept inside the subtree. */
  function HideOrUnhideAllChildren(t: FTree, hidden: bool, st: CommitState): (r: Result<CommitState, JsError>)
    ensures r.Success? <==> if IsHost(t.fiber) then Readable(t, hidden) else ModeReadable(t.fiber) && ReadableAll(t.kids, hidden)
    ensures r.Success? ==>
              r.value == st.(calls := st.calls + ToggleCalls(if IsHost(t.fiber) then [t.fiber] else VisibleHostsAll(t.kids), hidden))
  {
    if IsHost(t.fiber) then
      assert ToggleCalls([t.fiber], hidden) == [ToggleCall(t.fiber, hidden)];
      Toggle(t.fiber, hidden, st)
    else
      ToggleAllCallsVisibleHosts(t.kids, hidden, st);
      var _ :- if t.fiber.tag == OffscreenComponent then GetProp(t.fiber.pendingProps, "mode") else Success(Undefined);
      ToggleAll(t.kids, hidden, st)
  }

  /** The toggled fiber's own `pendingProps.mode` can be read, when it is
      an Offscreen fiber. */
  predicate ModeReadable(f: Fiber) {
    f.tag == OffscreenComponent ==> f.pendingProps != Null && f.pendingProps != Undefined
  }

  /** The fibers called back below a node: the topmost host fibers not
      inside an Offscreen fiber in hidden mode. */
  function VisibleHosts(t: FTree): seq<Fiber>
    decreases t, 1
  {
    if IsHost(t.fiber) then [t.fiber]
    else if HiddenOffscreen(t.fiber) then []
    else VisibleHostsAll(t.kids)
  }

  function VisibleHostsAll(ts: seq<FTree>): seq<Fiber>
    decreases ts, 0
  {
    if ts == [] then [] else VisibleHosts(ts[0]) + VisibleHostsAll(ts[1..])
  }

  /** Every prop the walk reads is there: the mode of each Offscreen
      fiber it meets, and the content of each text fiber it shows. */
  predicate Readable(t: FTree, hidden: bool)
    decreases t, 1
  {
    if IsHost(t.fiber) then !(t.fiber.tag == HostText && !hidden && (t.fiber.memoizedProps == Null || t.fiber.memoizedProps == Undefined))
    else if t.fiber.tag == OffscreenComponent then
      t.fiber.pendingProps != Null && t.fiber.pendingProps != Undefined && (HiddenOffscreen(t.fiber) || ReadableAll(t.kids, hidden))
    else ReadableAll(t.kids, hidden)
  }

  predicate ReadableAll(ts: seq<FTree>, hidden: bool)
    decreases ts, 0
  {
    ts == [] || (Readable(ts[0], hidden) && ReadableAll(ts[1..], hidden))
  }

  /** The calls for a list of host fibers. */
  function ToggleCalls(fs: seq<Fiber>, hidden: bool): seq<Call> {
    if fs == [] then [] else [ToggleCall(fs[0], hidden)] + ToggleCalls(fs[1..], hidden)
  }

  lemma {:induction false} ToggleCallsConcat(a: seq<Fiber>, b: seq<Fiber>, hidden: bool)
    ensures ToggleCalls(a + b, hidden) == ToggleCalls(a, hidden) + ToggleCalls(b, hidden)
    decreases |a|
  {
    if a == [] {
      assert a + b == b;
    } else {
      assert (a + b)[1..] == a[1..] + b;
      ToggleCallsConcat(a[1..], b, hidden);
    }
  }

  /** Below the toggled fiber, the walk calls back exactly the visible
      topmost host fibers, in tree order, and throws iff a prop it reads
      is missing. */
  lemma {:induction false} ToggleBelowCallsVisibleHosts(t: FTree, hidden: bool, st: CommitState)
    ensures ToggleBelow(t, hidden, st).Success? <==> Readable(t, hidden)
    ensures Readable(t, hidden) ==> ToggleBelow(t, hidden, st) == Success(st.(calls := st.calls + ToggleCalls(VisibleHosts(t), hidden)))
    decreases t, 1
  {
    if IsHost(t.fiber) {
      assert VisibleHosts(t) == [t.fiber];
      assert ToggleCalls([t.fiber], hidden) == [ToggleCall(t.fiber, hidden)] + ToggleCalls([], hidden);
      assert [ToggleCall(t.fiber, hidden)] + [] == [ToggleCall(t.fiber, hidden)];
    } else if t.fiber.tag == OffscreenComponent {
      if t.fiber.pendingProps != Null && t.fiber.pendingProps != Undefined && !HiddenOffscreen(t.fiber) {
        assert GetProp(t.fiber.pendingProps, "mode").value != Str("hidden");
        ToggleAllCallsVisibleHosts(t.kids, hidden, st);
      } else {
        assert st.calls + [] == st.calls;
      }
    } else {
      ToggleAllCallsVisibleHosts(t.kids, hidden, st);
    }
  }

  lemma {:induction false} ToggleAllCallsVisibleHosts(ts: seq<FTree>, hidden: bool, st: CommitState)
    ensures ToggleAll(ts, hidden, st).Success? <==> ReadableAll(ts, hidden)
    ensures ReadableAll(ts, hidden) ==> ToggleAll(ts, hidden, st) == Success(st.(calls := st.calls + ToggleCalls(VisibleHostsAll(ts), hidden)))
    decreases ts, 0
  {
    if ts == [] {
      assert st.calls + [] == st.calls;
    } else {
      ToggleBelowCallsVisibleHosts(ts[0], hidden, st);
      var r1 := ToggleBelow(ts[0], hidden, st);
      if r1.Success? {
        ToggleAllCallsVisibleHosts(ts[1..], hidden, r1.value);
        ToggleAllStep(ts, hidden, st);
      } else {
        assert ToggleAll(ts, hidden, st).Failure?;
      }
    }
  }

  /** The step of `ToggleAllCallsVisibleHosts` past the first tree. */
  lemma ToggleAllStep(ts: seq<FTree>, hidden: bool, st: CommitState)
    requires ts != [] && Readable(ts[0], hidden)
    requires ToggleBelow(ts[0], hidden, st) == Success(st.(calls := st.calls + ToggleCalls(VisibleHosts(ts[0]), hidden)))
    requires var st1 := ToggleBelow(ts[0], hidden, st).value;
             && (ToggleAll(ts[1..], hidden, st1).Success? <==> ReadableAll(ts[1..], hidden))
             && (ReadableAll(ts[1..], hidden) ==>
                   ToggleAll(ts[1..], hidden, st1) == Success(st1.(calls := st1.calls + ToggleCalls(VisibleHostsAll(ts[1..]), hidden))))
    ensures ToggleAll(ts, hidden, st).Success? <==> ReadableAll(ts, hidden)
    ensures ReadableAll(ts, hidden) ==> ToggleAll(ts, hidden, st) == Success(st.(calls := st.calls + ToggleCalls(VisibleHostsAll(ts), hidden)))
  {
    var st1 := ToggleBelow(ts[0], hidden, st).value;
    assert ToggleAll(ts, hidden, st) == ToggleAll(ts[1..], hidden, st1);
    if ReadableAll(ts[1..], hidden) {
      ToggleCallsConcat(VisibleHosts(ts[0]), VisibleHostsAll(ts[1..]), hidden);
      var a := ToggleCalls(VisibleHosts(ts[0]), hidden);
      var b := ToggleCalls(VisibleHostsAll(ts[1..]), hidden);
      assert st.calls + (a + b) == (st.calls + a) + b;
    }
  }

  /** An Offscreen fiber with no child and a sibling. */
  function LoneOffscreen(): FTree {
    Node(NewFiber(OffscreenComponent, Obj(map["mode" := Str("hidden")]), Null), [])
  }

  /** As written, toggling a childless fiber that has a sibling walks out
      of its subtree and throws; kept inside, it does nothing. */
  lemma ChildlessToggleEscapes(hidden: bool, st: CommitState)
    ensures HideOrUnhideAllChildrenAsWritten(LoneOffscreen(), true, hidden, st).Failure?
    ensures HideOrUnhideAllChildren(LoneOffscreen(), hidden, st) == Success(st)
  {
    assert GetProp(LoneOffscreen().fiber.pendingProps, "mode") == Success(Str("hidden"));
  }

  // ---------------------------------------------------------------- commitMutationEffectsOnFiber

  /** `fiber.flags &= ~bit`. */
  function ClearFlag(f: Fiber, bit: Flags): (r: Fiber)
    ensures r.flags == f.flags & !bit && r == f.(flags := r.flags)
  {
    f.(flags := f.flags & !bit)
  }

  /** The bits the mutation pass takes off a fiber: the four effects it
      handles, and `Visibility` on an Offscreen fiber. `Ref` stays for the
      layout pass. */
  function MutationCleared(f: Fiber): Flags {
    Placement | Update | ChildDeletion | PassiveEffect | (if f.tag == OffscreenComponent then Visibility else NoFlags)
  }

  /** What the mutation pass leaves: none of the cleared bits, and every
      other bit (`Ref` among them) as it was. */
  lemma MutationClearedBits(x: bv32, f: Fiber)
    ensures var y := x & !MutationCleared(f);
            && !HasAny(y, Placement) && !HasAny(y, Update) && !HasAny(y, ChildDeletion) && !HasAny(y, PassiveEffect)
            && (f.tag == OffscreenComponent ==> !HasAny(y, Visibility))
            && (HasAny(y, Ref) <==> HasAny(x, Ref))
            && (f.tag != OffscreenComponent ==> (HasAny(y, Visibility) <==> HasAny(x, Visibility)))
  {
  }

  /** The host parent of the fibers deleted under the fiber at `z`: the
      deleted fiber's `return` is that fiber. */
  function DeletedHostParent(z: Zipper): Option<nat> {
    GetHostParent(z.path + [Frame(z.focus.fiber, [], [])])
  }

  /** `deletions.forEach(child => commitDeletion(child, root))`. */
  function DeleteAll(ds: seq<FTree>, hostParent: Option<nat>, st: CommitState): Result<CommitState, JsError>
    decreases |ds|
  {
    if ds == [] then Success(st)
    else
      var st1 :- CommitDeletion.CommitDeletion(ds[0], hostParent, st);
      DeleteAll(ds[1..], hostParent, st1)
  }

  /** Placement: `commitPlacement`, then clear the bit. */
  function PlacementStep(z: Zipper, flags: Flags, f: Fiber, st: CommitState): (r: Result<(Fiber, CommitState), JsError>)
    ensures r.Success? ==> r.value.0 == f.(flags := ClearIfSet(flags, f.flags, Placement))
    ensures !HasAny(flags, Placement) ==> r == Success((f, st))
    ensures HasAny(flags, Placement) ==>
              (r.Success? <==> CommitPlacement(z, st.host).Success?)
              && (r.Success? ==> r.value.1 == st.(host := CommitPlacement(z, st.host).value))
  {
    var f1 := f.(flags := ClearIfSet(flags, f.flags, Placement));
    if HasAny(flags, Placement) then
      var h :- CommitPlacement(z, st.host);
      Success((f1, st.(host := h)))
    else Success((f1, st))
  }

  /** Update: `commitUpdate(finishedWork)`, then clear the bit. */
  function UpdateStep(flags: Flags, f: Fiber, st: CommitState): (r: Result<(Fiber, CommitState), JsError>)
    ensures r.Success? ==> r.value.0 == f.(flags := ClearIfSet(flags, f.flags, Update))
    ensures !HasAny(flags, Update) ==> r == Success((f, st))
    ensures HasAny(flags, Update) ==>
              (r.Success? <==> CommitUpdate(st.host, f).Success?)
              && (r.Success? ==> r.value.1 == st.(host := CommitUpdate(st.host, f).value))
  {
    var f1 := f.(flags := ClearIfSet(flags, f.flags, Update));
    if HasAny(flags, Update) then
      var h :- CommitUpdate(st.host, f);
      Success((f1, st.(host := h)))
    else Success((f1, st))
  }

  /** ChildDeletion: delete every fiber of `deletions` in order, then
      clear the bit. */
  function DeletionStep(z: Zipper, flags: Flags, f: Fiber, st: CommitState): (r: Result<(Fiber, CommitState), JsError>)
    ensures r.Success? ==> r.value.0 == f.(flags := ClearIfSet(flags, f.flags, ChildDeletion))
    ensures !HasAny(flags, ChildDeletion) || f.deletions.None? ==> r.Success? && r.value.1 == st
    ensures HasAny(flags, ChildDeletion) && f.deletions.Some? ==>
              (r.Success? <==> DeleteAll(f.deletions.value, DeletedHostParent(z), st).Success?)
              && (r.Success? ==> r.value.1 == DeleteAll(f.deletions.value, DeletedHostParent(z), st).value)
  {
    var f1 := f.(flags := ClearIfSet(flags, f.flags, ChildDeletion));
    if HasAny(flags, ChildDeletion) then
      var st1 :- if f.deletions.Some? then DeleteAll(f.deletions.value, DeletedHostParent(z), st) else Success(st);
      Success((f1, st1))
    else Success((f1, st))
  }

  /** PassiveEffect: queue the fiber's effects on the 'update' list, then
      clear the bit. The fiber still has the bit when it is queued. */
  function PassiveStep(flags: Flags, f: Fiber, st: CommitState): (r: (Fiber, CommitState))
    ensures r.0 == f.(flags := ClearIfSet(flags, f.flags, PassiveEffect))
    ensures !HasAny(flags, PassiveEffect) ==> r.1 == st
    ensures HasAny(flags, PassiveEffect) ==> r.1 == st.(passive := CommitPassiveEffect(f, UpdateList, st.passive))
  {
    var f1 := f.(flags := ClearIfSet(flags, f.flags, PassiveEffect));
    if HasAny(flags, PassiveEffect) then (f1, st.(passive := CommitPassiveEffect(f, UpdateList, st.passive)))
    else (f1, st)
  }

  /** Ref on a host component: detach the old ref; the bit stays. */
  function RefStep(flags: Flags, f: Fiber, st: CommitState): (r: Result<CommitState, JsError>)
    ensures !(HasAny(flags, Ref) && f.tag == HostComponent) ==> r == Success(st)
    ensures HasAny(flags, Ref) && f.tag == HostComponent ==> r == UnbindRef(f.ref, st)
  {
    if HasAny(flags, Ref) && f.tag == HostComponent then UnbindRef(f.ref, st) else Success(st)
  }

  /** Visibility on an Offscreen fiber: hide or show what is below it by
      its `pendingProps.mode`, then clear the bit. */
  function VisibilityStep(kids: seq<FTree>, flags: Flags, f: Fiber, st: CommitState): (r: Result<(Fiber, CommitState), JsError>)
    ensures r.Success? ==> r.value.0 == f.(flags := if f.tag == OffscreenComponent then ClearIfSet(flags, f.flags, Visibility) else f.flags)
    ensures !(HasAny(flags, Visibility) && f.tag == OffscreenComponent) ==> r == Success((f, st))
    ensures HasAny(flags, Visibility) && f.tag == OffscreenComponent && r.Success? ==>
              f.pendingProps != Null && f.pendingProps != Undefined
              && HideOrUnhideAllChildren(Node(f, kids), HiddenOffscreen(f), st) == Success(r.value.1)
  {
    if HasAny(flags, Visibility) && f.tag == OffscreenComponent then
      var mode :- GetProp(f.pendingProps, "mode");
      var st1 :- HideOrUnhideAllChildren(Node(f, kids), mode == Str("hidden"), st);
      Success((f.(flags := ClearIfSet(flags, f.flags, Visibility)), st1))
    else Success((f, st))
  }

  /** `commitMutationEffectsOnFiber(finishedWork, root)`: each effect bit
      read at the start is handled in turn and then cleared; with nothing
      to handle, nothing changes. */
  function MutationOnFiber(z: Zipper, st: CommitState): (r: Result<(Fiber, CommitState), JsError>)
    ensures r.Success? ==> r.value.0 == z.focus.fiber.(flags := MutationFlags(z.focus.fiber.flags, z.focus.fiber))
    ensures var flags := z.focus.fiber.flags;
            !HasAny(flags, Placement) && !HasAny(flags, Update) && !HasAny(flags, ChildDeletion) && !HasAny(flags, PassiveEffect)
            && !(HasAny(flags, Ref) && z.focus.fiber.tag == HostComponent)
            && !(HasAny(flags, Visibility) && z.focus.fiber.tag == OffscreenComponent)
            ==> r.Success? && r.value.1 == st
  {
    var f0 := z.focus.fiber;
    var flags := f0.flags;
    var (f1, st1) :- PlacementStep(z, flags, f0, st);
    var (f2, st2) :- UpdateStep(flags, f1, st1);
    var (f3, st3) :- DeletionStep(z, flags, f2, st2);
    var (f4, st4) := PassiveStep(flags, f3, st3);
    var st5 :- RefStep(flags, f4, st4);
    var (f6, st6) :- VisibilityStep(z.focus.kids, flags, f4, st5);
    Success((f6, st6))
  }

  /** `if ((flags & bit) !== NoFlags) { ...; fiber.flags &= ~bit }`: the
      bit is tested on the flags read at the start. */
  function ClearIfSet(orig: Flags, x: Flags, bit: Flags): Flags {
    if HasAny(orig, bit) then x & !bit else x
  }

  const HandledEffects: Flags := Placement | Update | ChildDeletion | PassiveEffect

  lemma FourCleared(orig: Flags)
    ensures ClearIfSet(orig, ClearIfSet(orig, ClearIfSet(orig, ClearIfSet(orig, orig, Placement), Update), ChildDeletion), PassiveEffect)
            == orig & !HandledEffects
  {
  }

  lemma VisibilityCleared(orig: Flags)
    ensures ClearIfSet(orig, orig & !HandledEffects, Visibility) == orig & !(HandledEffects | Visibility)
  {
  }

  /** The flags after the mutation steps, each taken iff its bit was set
      in the flags read at the start. */
  function MutationFlags(orig: Flags, f: Fiber): Flags {
    var x4 := ClearIfSet(orig, ClearIfSet(orig, ClearIfSet(orig, ClearIfSet(orig, orig, Placement), Update), ChildDeletion), PassiveEffect);
    if f.tag == OffscreenComponent then ClearIfSet(orig, x4, Visibility) else x4
  }

  /** Those flags are the flags with `MutationCleared` taken off: a bit is
      cleared whether or not it was set. */
  lemma StepFlagsCleared(orig: Flags, f: Fiber)
    ensures MutationFlags(orig, f) == orig & !MutationCleared(f)
  {
    FourCleared(orig);
    if f.tag == OffscreenComponent {
      VisibilityCleared(orig);
      assert MutationCleared(f) == HandledEffects | Visibility;
    } else {
      assert MutationCleared(f) == HandledEffects;
    }
  }

  /** The fiber after the mutation pass has none of the bits it handled,
      and still has every other bit, `Ref` among them. */
  lemma MutationOnFiberClears(z: Zipper, st: CommitState)
    ensures var r := MutationOnFiber(z, st);
            r.Success? ==> r.value.0.flags == z.focus.fiber.flags & !MutationCleared(z.focus.fiber)
  {
    StepFlagsCleared(z.focus.fiber.flags, z.focus.fiber);
  }

  // ---------------------------------------------------------------- commitLayoutEffectsOnFiber

  /** `commitLayoutEffectsOnFiber(finishedWork, root)`: a host component
      with `Ref` gets its ref attached and loses the bit; every other
      fiber is left alone. */
  function LayoutOnFiber(z: Zipper, st: CommitState): (r: Result<(Fiber, CommitState), JsError>)
    ensures var f := z.focus.fiber;
            !(HasAny(f.flags, Ref) && f.tag == HostComponent) ==> r == Success((f, st))
    ensures var f := z.focus.fiber;
            HasAny(f.flags, Ref) && f.tag == HostComponent ==>
              (r.Failure? <==> f.ref != Null && IsPrimitive(f.ref))
              && (r.Success? ==> r.value == (ClearFlag(f, Ref), BindRef(f, st).value))
  {
    var f := z.focus.fiber;
    if HasAny(f.flags, Ref) && f.tag == HostComponent then
      var st1 :- BindRef(f, st);
      Success((ClearFlag(f, Ref), st1))
    else Success((f, st))
  }

  /** The layout pass takes `Ref` off and keeps every other bit. */
  lemma RefCleared(x: Flags)
    ensures !HasAny(x & !Ref, Ref)
    ensures !HasAny(x, Ref) ==> x & !Ref == x
  {
  }

  // ---------------------------------------------------------------- commitEffects

  /** The walk's state: what the passes change, and the addresses of the
      fibers worked on so far, in order. */
  datatype PassState = PassState(st: CommitState, processed: seq<seq<nat>>)

  /** The work of a pass on one fiber. */
  type FiberWork = (Zipper, CommitState) -> Result<(Fiber, CommitState), JsError>

  function OnFiber(work: FiberWork, z: Zipper, s: PassState): (r: Result<(Fiber, PassState), JsError>)
    ensures r.Success? ==> r.value.1.processed == s.processed + [Address(z.path)]
  {
    var (f, st1) :- work(z, s.st);
    Success((f, PassState(st1, s.processed + [Address(z.path)])))
  }

  /** `commitEffects(phase, mask, commitEffectsOnFiber)`: nothing on the
      way down, into the children only when `subtreeFlags & mask` is set,
      the pass's work on the way up. */
  function EffectsVisitor(mask: Flags, work: FiberWork): Visitor<PassState> {
    Visitor((z: Zipper, s: PassState) => Success((z.focus.fiber, s)),
            Enters(mask),
            (z: Zipper, s: PassState) => OnFiber(work, z, s))
  }

  /** `(fiber.subtreeFlags & mask) !== NoFlags`: whether the walk goes into
      the fiber's children. */
  function Enters(mask: Flags): Fiber -> bool {
    (f: Fiber) => HasAny(f.subtreeFlags, mask)
  }

  function CommitEffects(mask: Flags, work: FiberWork, finishedWork: FTree, st: CommitState): Result<(FTree, PassState), JsError> {
    WalkDown(EffectsVisitor(mask, work), Zipper(finishedWork, []), PassState(st, []))
  }

  /** The mask of the mutation pass: `EffectMaskDuringMutation | PassiveEffect`. */
  const MutationPassMask: Flags := EffectMaskDuringMutation | PassiveEffect

  /** `commitMutationEffects(finishedWork, root)`: the mutation steps run on
      every fiber of the finished work whose ancestors' subtree flags meet
      the mask, children before parents. */
  function CommitMutationEffects(finishedWork: FTree, st: CommitState): (r: Result<(FTree, PassState), JsError>)
    ensures r.Success? ==> r.value.1.processed == PostOrder(finishedWork, [], Enters(MutationPassMask))
  {
    CommitEffectsOrder(MutationPassMask, MutationOnFiber, finishedWork, st);
    CommitEffects(MutationPassMask, MutationOnFiber, finishedWork, st)
  }

  /** `commitLayoutEffects(finishedWork, root)`: the same walk with the
      layout step, entering only subtrees that hold a `Ref`. */
  function CommitLayoutEffects(finishedWork: FTree, st: CommitState): (r: Result<(FTree, PassState), JsError>)
    ensures r.Success? ==> r.value.1.processed == PostOrder(finishedWork, [], Enters(LayoutMask))
  {
    CommitEffectsOrder(LayoutMask, LayoutOnFiber, finishedWork, st);
    CommitEffects(LayoutMask, LayoutOnFiber, finishedWork, st)
  }

  /** The fibers a pass works on, in order: the children first when the
      subtree flags meet the mask, then the fiber itself. */
  function PostOrder(t: FTree, a: seq<nat>, enter: Fiber -> bool): seq<seq<nat>>
    decreases t
  {
    (if enter(t.fiber) then PostOrderAll(t.kids, a, 0, enter) else []) + [a]
  }

  function PostOrderAll(ts: seq<FTree>, a: seq<nat>, i: nat, enter: Fiber -> bool): seq<seq<nat>>
    decreases ts
  {
    if ts == [] then [] else PostOrder(ts[0], a + [i], enter) + PostOrderAll(ts[1..], a, i + 1, enter)
  }

  lemma PostOrderAllCons(t: FTree, ts: seq<FTree>, a: seq<nat>, i: nat, enter: Fiber -> bool)
    ensures PostOrderAll([t] + ts, a, i, enter) == PostOrder(t, a + [i], enter) + PostOrderAll(ts, a, i + 1, enter)
  {
    assert ([t] + ts)[0] == t && ([t] + ts)[1..] == ts;
  }

  /** A visitor of the shape of `commitEffects` that records each fiber it
      works on. */
  ghost predicate Processes(v: Visitor<PassState>, enter: Fiber -> bool) {
    && (forall z, s :: v.pre(z, s) == Success((z.focus.fiber, s)))
    && (forall f :: v.descend(f) == enter(f))
    && (forall z, s :: v.post(z, s).Success? ==> v.post(z, s).value.1.processed == s.processed + [Address(z.path)])
  }

  lemma EffectsVisitorProcesses(mask: Flags, work: FiberWork)
    ensures Processes(EffectsVisitor(mask, work), Enters(mask))
  {
    var v := EffectsVisitor(mask, work);
    forall z, s | v.post(z, s).Success?
      ensures v.post(z, s).value.1.processed == s.processed + [Address(z.path)]
    {
      assert v.post(z, s) == OnFiber(work, z, s);
    }
  }

  lemma {:induction false} VisitProcesses(v: Visitor<PassState>, enter: Fiber -> bool, z: Zipper, s: PassState)
    requires Processes(v, enter)
    ensures var r := Visit(v, z, s);
            r.Success? ==> r.value.1.processed == s.processed + PostOrder(z.focus, Address(z.path), enter)
    decreases Size(z.focus), 1
  {
    assert v.pre(z, s) == Success((z.focus.fiber, s));
    assert WithFiber(z, z.focus.fiber) == z;
    var a := Address(z.path);
    if enter(z.focus.fiber) && z.focus.kids != [] {
      var d := Down(z);
      VisitKidsProcesses(v, enter, d, s);
      assert Address(d.path) == a + [0];
      assert [d.focus] + Last(d.path).right == z.focus.kids;
      var rk := VisitKids(v, d, s);
      if rk.Success? {
        assert Up(rk.value.0).path == z.path;
      }
    } else if enter(z.focus.fiber) {
      assert PostOrderAll(z.focus.kids, a, 0, enter) == [];
    }
  }

  lemma {:induction false} VisitKidsProcesses(v: Visitor<PassState>, enter: Fiber -> bool, z: Zipper, s: PassState)
    requires Processes(v, enter)
    requires z.path != []
    ensures var r := VisitKids(v, z, s);
            r.Success? ==> r.value.1.processed
                           == s.processed + PostOrderAll([z.focus] + Last(z.path).right, Address(Outer(z.path)), |Last(z.path).left|, enter)
    decreases Size(z.focus) + SizeAll(Last(z.path).right), 2
  {
    var fr := Last(z.path);
    var a := Address(Outer(z.path));
    var n := |fr.left|;
    assert Address(z.path) == a + [n];
    var p := PostOrder(z.focus, a + [n], enter);
    var q := PostOrderAll(fr.right, a, n + 1, enter);
    VisitProcesses(v, enter, z, s);
    var r1 := Visit(v, z, s);
    if r1.Success? && HasSibling(r1.value.0) {
      SiblingsProcess(v, enter, r1.value.0, r1.value.1);
    }
    VisitKidsChain(v, (t: PassState) => t.processed, z, s, p, q);
    PostOrderAllCons(z.focus, fr.right, a, n, enter);
  }

  /** The step to the right sibling of `VisitKidsProcesses`. */
  lemma {:induction false} SiblingsProcess(v: Visitor<PassState>, enter: Fiber -> bool, z: Zipper, s: PassState)
    requires Processes(v, enter)
    requires HasSibling(z)
    ensures var r := VisitKids(v, Right(z), s);
            r.Success? ==> r.value.1.processed
                           == s.processed + PostOrderAll(Last(z.path).right, Address(Outer(z.path)), |Last(z.path).left| + 1, enter)
    decreases SizeAll(Last(z.path).right), 3
  {
    var rz := Right(z);
    SizeAllAppend([rz.focus], Last(rz.path).right);
    VisitKidsProcesses(v, enter, rz, s);
    assert [rz.focus] + Last(rz.path).right == Last(z.path).right;
    assert Address(Outer(rz.path)) == Address(Outer(z.path));
    assert |Last(rz.path).left| == |Last(z.path).left| + 1;
  }

  /** No entry twice. */
  ghost predicate Distinct(xs: seq<seq<nat>>) {
    forall i, j :: 0 <= i < j < |xs| ==> xs[i] != xs[j]
  }

  lemma DistinctConcat(xs: seq<seq<nat>>, ys: seq<seq<nat>>)
    requires Distinct(xs) && Distinct(ys)
    requires forall x :: x in xs ==> x !in ys
    ensures Distinct(xs + ys)
  {
    var zs := xs + ys;
    forall i, j | 0 <= i < j < |zs|
      ensures zs[i] != zs[j]
    {
      if i < |xs| && j >= |xs| {
        assert zs[i] in xs && zs[j] == ys[j - |xs|];
      }
    }
  }

  /** Every address a pass records below `a` extends `a`; the fiber at `a`
      itself comes last and only once; no fiber is worked on twice. */
  lemma {:induction false} PostOrderShape(t: FTree, a: seq<nat>, enter: Fiber -> bool)
    ensures var o := PostOrder(t, a, enter);
            && o != [] && o[|o| - 1] == a
            && (forall x :: x in o ==> |a| <= |x| && x[..|a|] == a)
            && (forall k :: 0 <= k < |o| - 1 ==> |o[k]| > |a|)
            && Distinct(o)
    decreases t, 1
  {
    var o := PostOrder(t, a, enter);
    var below := if enter(t.fiber) then PostOrderAll(t.kids, a, 0, enter) else [];
    assert o == below + [a];
    if enter(t.fiber) {
      PostOrderAllShape(t.kids, a, 0, enter);
    }
    assert forall x :: x in below ==> |x| > |a| && x[..|a|] == a;
    DistinctConcat(below, [a]);
    forall k | 0 <= k < |o| - 1
      ensures |o[k]| > |a|
    {
      assert o[k] == below[k];
    }
  }

  lemma {:induction false} PostOrderAllShape(ts: seq<FTree>, a: seq<nat>, i: nat, enter: Fiber -> bool)
    ensures var o := PostOrderAll(ts, a, i, enter);
            && (forall x :: x in o ==> |a| < |x| && x[..|a|] == a && i <= x[|a|])
            && Distinct(o)
    decreases ts, 0
  {
    if ts != [] {
      var b := a + [i];
      var o1 := PostOrder(ts[0], b, enter);
      var o2 := PostOrderAll(ts[1..], a, i + 1, enter);
      PostOrderShape(ts[0], b, enter);
      PostOrderAllShape(ts[1..], a, i + 1, enter);
      forall x | x in o1
        ensures |a| < |x| && x[..|a|] == a && x[|a|] == i
      {
        assert x[..|b|] == b;
        assert x[..|a|] == x[..|b|][..|a|];
        assert x[|a|] == x[..|b|][|a|];
      }
      DistinctConcat(o1, o2);
    }
  }

  /** A pass works on the fibers of `PostOrder`: a fiber's children are
      entered only when its subtree flags meet the mask, and each fiber
      worked on comes after the fibers below it that are worked on and
      before its parent. */
  lemma CommitEffectsOrder(mask: Flags, work: FiberWork, finishedWork: FTree, st: CommitState)
    ensures var r := CommitEffects(mask, work, finishedWork, st);
            r.Success? ==> r.value.1.processed == PostOrder(finishedWork, [], Enters(mask))
  {
    var v := EffectsVisitor(mask, work);
    EffectsVisitorProcesses(mask, work);
    WalkIsVisit(v, finishedWork, PassState(st, []));
    VisitProcesses(v, Enters(mask), Zipper(finishedWork, []), PassState(st, []));
  }
}
