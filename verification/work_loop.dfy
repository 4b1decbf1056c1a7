/** The render loop (packages/react-reconciler/src/workLoop.ts).

    `workLoop` repeats `performUnitOfWork` while there is a unit of work:
    begin the fiber, go to its child, and when there is none complete the
    fiber and its ancestors (`completeUnitOfWork`) until one has a sibling.
    That is the walk of `TreeWalk` with "begin" on the way down and
    `completeWork` on the way up.

    The walk runs over a given tree: the children of each fiber are the
    ones its `beginWork` produced. What `beginWork` does to the fiber itself
    is the parameter `begin`. */
module WorkLoop {
  import opened Wrappers
  import opened JsValues
  import opened FiberFlags
  import opened Fibers
  import opened NoopHost
  import opened TreeWalk
  import opened CompleteWork
  import opened CommitLog
  import opened CommitWork

  // ---------------------------------------------------------------- markUpdateFromFiberToRoot

  /** The topmost ancestor, reached by following `return`. */
  function Topmost(z: Zipper): Fiber
    decreases |z.path|
  {
    if z.path == [] then z.focus.fiber else Topmost(Up(z))
  }

  /** The root of the tree is where the climb ends. */
  lemma {:induction false} TopmostIsRoot(z: Zipper)
    ensures Topmost(z) == Plug(z).fiber
    ensures z.path != [] ==> Topmost(z) == z.path[0].parent
    decreases |z.path|
  {
    if z.path != [] {
      TopmostIsRoot(Up(z));
      if |z.path| > 1 {
        assert Up(z).path[0] == z.path[0];
      }
    }
  }

  /** `markUpdateFromFiberToRoot(fiber)`: the fiber root, if the topmost
      ancestor is a host root; `null` otherwise. */
  function MarkUpdateFromFiberToRoot(z: Zipper): (r: Option<StateNode>)
    ensures r.Some? <==> Plug(z).fiber.tag == HostRoot
    ensures r.Some? ==> r.value == Plug(z).fiber.stateNode
  {
    TopmostIsRoot(z);
    var top := Topmost(z);
    if top.tag == HostRoot then Some(top.stateNode) else None
  }

  // ---------------------------------------------------------------- workLoop

  /** A step of the loop on the fiber at an address. */
  datatype Event = Begin(at: seq<nat>) | Complete(at: seq<nat>)

  /** What the loop carries: the host store `completeWork` builds into,
      and the steps taken so far. */
  datatype RenderState = RenderState(host: Host, events: seq<Event>)

  /** `performUnitOfWork` up to the choice of the next unit: begin the
      fiber, then `fiber.memoizedProps = fiber.pendingProps`. */
  function BeginStep(begin: Fiber -> Result<Fiber, JsError>, z: Zipper, s: RenderState): (r: Result<(Fiber, RenderState), JsError>)
    ensures r.Success? ==> r.value.0.memoizedProps == r.value.0.pendingProps
    ensures r.Success? ==> r.value.1 == s.(events := s.events + [Begin(Address(z.path))])
  {
    var f :- begin(z.focus.fiber);
    Success((f.(memoizedProps := f.pendingProps), s.(events := s.events + [Begin(Address(z.path))])))
  }

  /** `completeWork(node)` inside `completeUnitOfWork`. */
  function CompleteStep(z: Zipper, s: RenderState): (r: Result<(Fiber, RenderState), JsError>)
    ensures r.Success? ==> CompleteWork.CompleteWork(z.focus, s.host).Success?
                           && r.value == (CompleteWork.CompleteWork(z.focus, s.host).value.0,
                                          RenderState(CompleteWork.CompleteWork(z.focus, s.host).value.1, s.events + [Complete(Address(z.path))]))
  {
    var (f, h) :- CompleteWork.CompleteWork(z.focus, s.host);
    Success((f, RenderState(h, s.events + [Complete(Address(z.path))])))
  }

  /** `beginWork` returns `wip.child`, so the loop goes down exactly when
      there is a child. */
  function RenderVisitor(begin: Fiber -> Result<Fiber, JsError>): Visitor<RenderState> {
    Visitor((z, s) => BeginStep(begin, z, s), f => true, (z, s) => CompleteStep(z, s))
  }

  /** `workLoop()` from `workInProgress = root` until it is `null`. */
  function WorkLoop(begin: Fiber -> Result<Fiber, JsError>, root: FTree, s: RenderState): Result<(FTree, RenderState), JsError> {
    WalkDown(RenderVisitor(begin), Zipper(root, []), s)
  }

  /** The steps of a walk over `t` at address `a`: begin, the children in
      order, complete. */
  function Trace(t: FTree, a: seq<nat>): seq<Event>
    decreases t
  {
    [Begin(a)] + TraceAll(t.kids, a, 0) + [Complete(a)]
  }

  /** The steps for children `ts`, the first at index `i` under `a`. */
  function TraceAll(ts: seq<FTree>, a: seq<nat>, i: nat): seq<Event>
    decreases ts
  {
    if ts == [] then [] else Trace(ts[0], a + [i]) + TraceAll(ts[1..], a, i + 1)
  }

  /** Each fiber is begun once and completed once. */
  lemma {:induction false} TraceLength(t: FTree, a: seq<nat>)
    ensures |Trace(t, a)| == 2 * Size(t)
    decreases t, 1
  {
    TraceAllLength(t.kids, a, 0);
  }

  lemma {:induction false} TraceAllLength(ts: seq<FTree>, a: seq<nat>, i: nat)
    ensures |TraceAll(ts, a, i)| == 2 * SizeAll(ts)
    decreases ts, 0
  {
    if ts != [] {
      TraceLength(ts[0], a + [i]);
      TraceAllLength(ts[1..], a, i + 1);
    }
  }

  /** The begin of a fiber comes first and its completion last: parents
      are begun before and completed after their descendants. */
  lemma TraceBracket(t: FTree, a: seq<nat>)
    ensures var tr := Trace(t, a); |tr| >= 2 && tr[0] == Begin(a) && tr[|tr| - 1] == Complete(a)
  {
  }

  /** A visitor that always descends and logs a begin on the way down
      and a completion on the way up. */
  ghost predicate Logs(v: Visitor<RenderState>) {
    && (forall f :: v.descend(f))
    && (forall z, s :: v.pre(z, s).Success? ==> v.pre(z, s).value.1.events == s.events + [Begin(Address(z.path))])
    && (forall z, s :: v.post(z, s).Success? ==> v.post(z, s).value.1.events == s.events + [Complete(Address(z.path))])
  }

  lemma RenderVisitorLogs(begin: Fiber -> Result<Fiber, JsError>)
    ensures Logs(RenderVisitor(begin))
  {
    var v := RenderVisitor(begin);
    forall z, s | v.pre(z, s).Success?
      ensures v.pre(z, s).value.1.events == s.events + [Begin(Address(z.path))]
    {
      assert v.pre(z, s) == BeginStep(begin, z, s);
    }
    forall z, s | v.post(z, s).Success?
      ensures v.post(z, s).value.1.events == s.events + [Complete(Address(z.path))]
    {
      assert v.post(z, s) == CompleteStep(z, s);
    }
  }

  /** Visiting a subtree logs exactly its trace. */
  lemma {:induction false} VisitTrace(v: Visitor<RenderState>, z: Zipper, s: RenderState)
    requires Logs(v)
    ensures var r := Visit(v, z, s);
            r.Success? ==> r.value.1.events == s.events + Trace(z.focus, Address(z.path))
    decreases Size(z.focus), 1
  {
    var a := Address(z.path);
    var log := (t: RenderState) => t.events;
    var below := TraceAll(z.focus.kids, a, 0);
    var r0 := v.pre(z, s);
    if r0.Success? {
      var z1 := WithFiber(z, r0.value.0);
      assert v.descend(r0.value.0);
      if z.focus.kids != [] {
        var d := Down(z1);
        VisitKidsTrace(v, d, r0.value.1);
        assert Address(Outer(d.path)) == a;
        assert [d.focus] + Last(d.path).right == z.focus.kids;
      }
    }
    forall y: Zipper, e2: RenderState | y.path == z.path && v.post(y, e2).Success?
      ensures log(v.post(y, e2).value.1) == log(e2) + [Complete(a)]
    {
    }
    VisitChain(v, log, z, s, [Begin(a)], below, [Complete(a)]);
  }

  lemma TraceAllCons(t: FTree, ts: seq<FTree>, a: seq<nat>, i: nat)
    ensures TraceAll([t] + ts, a, i) == Trace(t, a + [i]) + TraceAll(ts, a, i + 1)
  {
    assert ([t] + ts)[0] == t && ([t] + ts)[1..] == ts;
  }

  /** Visiting a child and its right siblings logs their traces in order. */
  lemma {:induction false} VisitKidsTrace(v: Visitor<RenderState>, z: Zipper, s: RenderState)
    requires Logs(v)
    requires z.path != []
    ensures var r := VisitKids(v, z, s);
            r.Success? ==> r.value.1.events == s.events + TraceAll([z.focus] + Last(z.path).right, Address(Outer(z.path)), |Last(z.path).left|)
    decreases Size(z.focus) + SizeAll(Last(z.path).right), 2
  {
    var fr := Last(z.path);
    var a := Address(Outer(z.path));
    var n := |fr.left|;
    assert Address(z.path) == a + [n];
    VisitTrace(v, z, s);
    var r1 := Visit(v, z, s);
    if r1.Success? && HasSibling(r1.value.0) {
      var rz := Right(r1.value.0);
      VisitKidsTrace(v, rz, r1.value.1);
      assert [rz.focus] + Last(rz.path).right == fr.right;
      assert Address(Outer(rz.path)) == a;
      assert |Last(rz.path).left| == n + 1;
    }
    VisitKidsChain(v, (t: RenderState) => t.events, z, s, Trace(z.focus, a + [n]), TraceAll(fr.right, a, n + 1));
    TraceAllCons(z.focus, fr.right, a, n);
  }

  /** The loop begins every fiber in preorder and completes every fiber in
      postorder: a parent is begun before its children and completed after
      them, siblings left to right. */
  lemma WorkLoopTrace(begin: Fiber -> Result<Fiber, JsError>, root: FTree, s: RenderState)
    ensures var r := WorkLoop(begin, root, s);
            r.Success? ==> r.value.1.events == s.events + Trace(root, [])
  {
    RenderVisitorLogs(begin);
    WalkIsVisit(RenderVisitor(begin), root, s);
    VisitTrace(RenderVisitor(begin), Zipper(root, []), s);
  }

  // ---------------------------------------------------------------- commitRoot

  /** Whether `commitRoot` runs the mutation pass:
      `(subtreeFlags & MutationMask) !== NoFlags` or
      `(flags & MutationMask) !== NoFlags` on the finished work. */
  predicate HasMutation(f: Fiber) {
    HasAny(f.subtreeFlags, MutationMask) || HasAny(f.flags, MutationMask)
  }

  /** `commitRoot(root)` against the host store `host`: nothing without
      finished work; otherwise `finishedWork` is reset, and only when the
      tree has a mutation are the mutation pass run and `current` switched
      to the finished tree. The layout pass is not called. The second
      component is what the pass changed and the fibers it worked on. */
  function CommitRoot(root: FiberRootNode, host: Host): (r: Result<(FiberRootNode, PassState), JsError>)
    ensures root.finishedWork.None? ==> r == Success((root, PassState(CommitState(host, root.pendingPassiveEffects, []), [])))
    ensures r.Success? ==> r.value.0.finishedWork.None?
                           && r.value.0.container == root.container && r.value.0.pendingLanes == root.pendingLanes
                           && r.value.0.pingCache == root.pingCache
    ensures root.finishedWork.Some? && !HasMutation(root.finishedWork.value.fiber) ==>
              r == Success((root.(finishedWork := None), PassState(CommitState(host, root.pendingPassiveEffects, []), [])))
    ensures root.finishedWork.Some? && HasMutation(root.finishedWork.value.fiber) && r.Success? ==>
              r.value.1.processed == PostOrder(root.finishedWork.value, [], Enters(MutationPassMask))
              && r.value.0.pendingPassiveEffects == r.value.1.st.passive
  {
    var st := CommitState(host, root.pendingPassiveEffects, []);
    match root.finishedWork
    case None => Success((root, PassState(st, [])))
    case Some(fw) =>
      if HasMutation(fw.fiber) then
        var (tree, s1) :- CommitMutationEffects(fw, st);
        Success((root.(finishedWork := None, current := tree, pendingPassiveEffects := s1.st.passive), s1))
      else
        Success((root.(finishedWork := None), PassState(st, [])))
  }

  /** `commitRoot` as written: workLoop.ts calls `commitMutationEffects`
      with the finished work only, so the pass's `root` is `undefined` and
      the first `root.pendingPassiveEffects[type].push` throws. The pass
      changes the passive lists only by pushing onto them, so it pushed
      exactly when they differ from the ones it started with. */
  function CommitRootAsWritten(root: FiberRootNode, host: Host): (r: Result<(FiberRootNode, PassState), JsError>)
    ensures r.Success? ==> r == CommitRoot(root, host) && r.value.0.pendingPassiveEffects == root.pendingPassiveEffects
    ensures CommitRoot(root, host).Failure? ==> r.Failure?
  {
    var c := CommitRoot(root, host);
    if c.Success? && c.value.1.st.passive != root.pendingPassiveEffects then
      Failure(TypeError("Cannot read properties of undefined (reading 'pendingPassiveEffects')"))
    else c
  }

  /** A function component with a pending update and a passive effect. */
  function EffectComponent(ring: EffectRing): Fiber {
    NewFiber(FunctionComponent, Null, Null).(flags := Update | PassiveEffect, updateQueue := EffectQueue(Some(ring)))
  }

  /** A fiber root whose finished work is a host root over that component. */
  function RootWithEffect(ring: EffectRing): FiberRootNode {
    var hostRoot := NewFiber(HostRoot, Null, Null).(subtreeFlags := Update | PassiveEffect);
    var tree := Node(hostRoot, [Node(EffectComponent(ring), [])]);
    FiberRootNode(1, tree, Some(tree), 0, PendingPassiveEffects([], []), None)
  }

  /** The mutation pass on the component: an update that leaves the host
      alone, then the push of its effect list. */
  lemma EffectComponentCommits(ring: EffectRing, leaf: Zipper, st: CommitState)
    requires leaf.focus == Node(EffectComponent(ring), [])
    ensures var r := MutationOnFiber(leaf, st);
            r.Success? && r.value.1 == st.(passive := st.passive.(update := st.passive.update + [ring]))
  {
    var fc := EffectComponent(ring);
    var flags := fc.flags;
    assert !HasAny(flags, Placement) && HasAny(flags, Update) && !HasAny(flags, ChildDeletion)
           && HasAny(flags, PassiveEffect) && !HasAny(flags, Ref) && !HasAny(flags, Visibility);
    var fc1 := fc.(flags := ClearIfSet(flags, fc.flags, Placement));
    assert PlacementStep(leaf, flags, fc, st) == Success((fc1, st));
    var fc2 := fc1.(flags := ClearIfSet(flags, fc1.flags, Update));
    assert UpdateStep(flags, fc1, st) == Success((fc2, st));
    var fc3 := fc2.(flags := ClearIfSet(flags, fc2.flags, ChildDeletion));
    assert DeletionStep(leaf, flags, fc2, st) == Success((fc3, st));
    assert Queues(fc3, UpdateList);
  }

  /** Finishing the host root at the top: it has no effects of its own. */
  lemma FinishRoot(up: Zipper, s: PassState)
    requires up.path == [] && up.focus.fiber.flags == NoFlags
    ensures var r := WalkProcess(EffectsVisitor(MutationPassMask, MutationOnFiber), up, s);
            r.Success? && r.value.1.st == s.st
  {
    assert MutationOnFiber(up, s.st).Success? && MutationOnFiber(up, s.st).value.1 == s.st;
  }

  /** Finishing the component under it: the push, then up to the root. */
  lemma FinishComponent(ring: EffectRing, leaf: Zipper, s: PassState)
    requires leaf.focus == Node(EffectComponent(ring), []) && |leaf.path| == 1 && Last(leaf.path).right == []
    requires Last(leaf.path).parent.flags == NoFlags
    ensures var r := WalkDown(EffectsVisitor(MutationPassMask, MutationOnFiber), leaf, s);
            r.Success? && r.value.1.st == s.st.(passive := s.st.passive.(update := s.st.passive.update + [ring]))
  {
    var v := EffectsVisitor(MutationPassMask, MutationOnFiber);
    EffectComponentCommits(ring, leaf, s.st);
    var m := MutationOnFiber(leaf, s.st).value;
    var o := OnFiber(MutationOnFiber, leaf, s);
    assert o.Success? && o.value.1.st == m.1;
    var lz := WithFiber(leaf, o.value.0);
    assert !HasSibling(lz);
    FinishRoot(Up(lz), o.value.1);
    assert WalkDown(v, leaf, s) == WalkProcess(v, leaf, s);
  }

  /** The mutation pass over that finished work pushes the list once. */
  lemma MutationPassPushes(ring: EffectRing, st: CommitState)
    ensures var r := CommitMutationEffects(RootWithEffect(ring).finishedWork.value, st);
            r.Success? && r.value.1.st == st.(passive := st.passive.(update := st.passive.update + [ring]))
  {
    var tree := RootWithEffect(ring).finishedWork.value;
    var v := EffectsVisitor(MutationPassMask, MutationOnFiber);
    var top := Zipper(tree, []);
    assert v.descend(tree.fiber);
    var leaf := Down(top);
    assert leaf.focus == Node(EffectComponent(ring), []) && leaf.path == [Frame(tree.fiber, [], [])];
    FinishComponent(ring, leaf, PassState(st, []));
    assert WithFiber(top, tree.fiber) == top;
    assert WalkDown(v, top, PassState(st, [])) == WalkDown(v, leaf, PassState(st, []));
  }

  /** With the root passed, the commit queues the component's effect list
      for the passive phase; as written, the same commit throws. */
  lemma CommitRootLosesRoot(ring: EffectRing, host: Host)
    ensures var r := CommitRoot(RootWithEffect(ring), host);
            r.Success? && r.value.0.pendingPassiveEffects == PendingPassiveEffects([], [ring])
    ensures CommitRootAsWritten(RootWithEffect(ring), host).Failure?
  {
    var root := RootWithEffect(ring);
    assert HasMutation(root.finishedWork.value.fiber);
    MutationPassPushes(ring, CommitState(host, root.pendingPassiveEffects, []));
  }
}
