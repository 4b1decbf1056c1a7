/** `commitDeletion(childToDelete, root)`
    (packages/react-reconciler/src/commitWork.ts).

    The source walks the deleted subtree in preorder with a `do … while`
    loop: function components queue their effect list for unmount, host
    components detach a ref, and the first host fiber met on each branch
    (tracked in `temp` until the walk climbs back into it) is remembered.
    Then the nodes of the remembered fibers are removed from the host parent.

    The loop is the walk of `TreeWalk`: the unmount work is done on the way
    down, and `temp` is cleared on the way up. Two things in the loop go
    wrong, and both are modelled as written next to a corrected walk:
    - `temp` is cleared only when the walk climbs into it, so after a host
      fiber without children it stays set and later host fibers are not
      removed;
    - a deleted fiber without children that has a sibling steps into that
      sibling and walks out of the subtree; the walk then climbs past the
      root and reads `sibling` of `null`. */
module CommitDeletion {
  import opened Wrappers
  import opened JsValues
  import opened FiberFlags
  import opened Fibers
  import opened NoopHost
  import opened TreeWalk
  import opened CompleteWork
  import opened CommitLog

  /** The walk's state: the commit state, `temp` (the topmost host fiber
      the walk is inside, by its address below the deleted fiber), and the
      topmost host fibers found so far. */
  datatype DeletionState = DeletionState(st: CommitState, temp: Option<seq<nat>>, roots: seq<Fiber>)

  /** The `switch` on the way down. Host components detach the ref of
      the deleted fiber, not their own. */
  function Unmount(ref: Value, z: Zipper, d: DeletionState): (r: Result<(Fiber, DeletionState), JsError>)
    ensures r.Success? ==> r.value.0 == z.focus.fiber
  {
    var f := z.focus.fiber;
    var found := d.(temp := Some(Address(z.path)), roots := d.roots + [f]);
    match f.tag
    case HostComponent =>
      var st1 :- UnbindRef(ref, d.st);
      Success((f, if d.temp.None? then found.(st := st1) else d.(st := st1)))
    case HostText =>
      Success((f, if d.temp.None? then found else d))
    case FunctionComponent =>
      Success((f, d.(st := d.st.(passive := CommitPassiveEffect(f, UnmountList, d.st.passive)))))
    case _ => Success((f, d))
  }

  /** Back at a fiber after its children: `if (node === temp) temp = null`
      runs only after `node = node.return`, so only for a fiber with
      children. */
  function LeaveAsWritten(z: Zipper, d: DeletionState): Result<(Fiber, DeletionState), JsError> {
    Success((z.focus.fiber, if z.focus.kids != [] && d.temp == Some(Address(z.path)) then d.(temp := None) else d))
  }

  /** Leaving the remembered host fiber clears `temp`, whether or not it
      has children. */
  function Leave(z: Zipper, d: DeletionState): Result<(Fiber, DeletionState), JsError> {
    Success((z.focus.fiber, if d.temp == Some(Address(z.path)) then d.(temp := None) else d))
  }

  function DeletionVisitor(ref: Value, asWritten: bool): Visitor<DeletionState> {
    Visitor((z, d) => Unmount(ref, z, d), f => true,
            (z, d) => if asWritten then LeaveAsWritten(z, d) else Leave(z, d))
  }

  /** The walk over the deleted subtree, from the deleted fiber back to it. */
  function DeletionWalk(child: FTree, asWritten: bool, st: CommitState): Result<DeletionState, JsError> {
    var (_, d) :- WalkDown(DeletionVisitor(child.fiber.ref, asWritten), Zipper(child, []), DeletionState(st, None, []));
    Success(d)
  }

  /** `removeChild(fiber.stateNode, hostParent)`. A fiber without a node
      is not among the children. */
  function RemoveHost(f: Fiber, parent: nat, h: Host): (r: Result<Host, JsError>)
    ensures r.Success? <==> parent in h.nodes && IsParentNode(h.nodes[parent]) && f.stateNode.HostInstance?
                            && f.stateNode.id in ChildrenOf(h.nodes[parent])
    ensures r.Success? ==> parent in r.value.nodes && IsParentNode(r.value.nodes[parent])
                           && ChildrenOf(r.value.nodes[parent]) == RemoveFirst(ChildrenOf(h.nodes[parent]), f.stateNode.id)
  {
    if parent !in h.nodes || !IsParentNode(h.nodes[parent]) then Failure(TypeError("Cannot read properties of undefined (reading 'children')"))
    else match f.stateNode
      case HostInstance(id) => RemoveChild(h, id, parent)
      case _ => Failure(Error("child does not exist"))
  }

  function RemoveAll(fs: seq<Fiber>, parent: nat, h: Host): Result<Host, JsError>
    decreases |fs|
  {
    if fs == [] then Success(h)
    else
      var h1 :- RemoveHost(fs[0], parent, h);
      RemoveAll(fs[1..], parent, h1)
  }

  /** Removing the remembered host nodes from the host parent, when there
      are any and the deleted fiber has a host parent. */
  function RemoveRoots(d: DeletionState, hostParent: Option<nat>): Result<CommitState, JsError> {
    if d.roots == [] || hostParent.None? then Success(d.st)
    else
      var h :- RemoveAll(d.roots, hostParent.value, d.st.host);
      Success(d.st.(host := h))
  }

  /** `commitDeletion` as written. `hasSibling` says whether the deleted
      fiber's `sibling` is set; `hostParent` is `getHostParent` of it. */
  function CommitDeletionAsWritten(child: FTree, hasSibling: bool, hostParent: Option<nat>, st: CommitState): (r: Result<CommitState, JsError>)
    ensures child.kids == [] && hasSibling ==> r.Failure?
    ensures child.kids == [] && !hasSibling ==> r == CommitDeletion(child, hostParent, st)
  {
    LeafDeletionsAgree(child, hostParent, st);
    if child.kids == [] && hasSibling then Failure(TypeError("Cannot read properties of null (reading 'sibling')"))
    else
      var d :- DeletionWalk(child, true, st);
      RemoveRoots(d, hostParent)
  }

  /** `commitDeletion` with the walk kept inside the subtree and `temp`
      cleared whenever the walk leaves it. */
  function CommitDeletion(child: FTree, hostParent: Option<nat>, st: CommitState): (r: Result<CommitState, JsError>)
    ensures r.Success? ==> r.value.passive == st.passive.(unmount := st.passive.unmount + FcRings(child))
                           && r.value.calls == st.calls + Detaches(child, child.fiber.ref)
    ensures r.Success? && (hostParent.None? || TopHosts(child) == []) ==> r.value.host == st.host
  {
    DeletionWalkFindsTopHosts(child, st);
    var d :- DeletionWalk(child, false, st);
    RemoveRoots(d, hostParent)
  }

  // ---------------------------------------------------------------- what the corrected walk does

  /** The effect lists of the function components of a subtree, in
      preorder. */
  function FcRings(t: FTree): seq<EffectRing>
    decreases t
  {
    (if Queues(t.fiber, UnmountList) then [t.fiber.updateQueue.lastEffect.value] else []) + FcRingsAll(t.kids)
  }

  function FcRingsAll(ts: seq<FTree>): seq<EffectRing>
    decreases ts
  {
    if ts == [] then [] else FcRings(ts[0]) + FcRingsAll(ts[1..])
  }

  /** One detach of the deleted fiber's ref per host component. */
  function Detaches(t: FTree, ref: Value): seq<Call>
    decreases t
  {
    (if t.fiber.tag == HostComponent && ref != Null then [RefDetach(ref)] else []) + DetachesAll(t.kids, ref)
  }

  function DetachesAll(ts: seq<FTree>, ref: Value): seq<Call>
    decreases ts
  {
    if ts == [] then [] else Detaches(ts[0], ref) + DetachesAll(ts[1..], ref)
  }

  /** The walk's effect on the commit state over some subtrees. */
  predicate Unmounted(ref: Value, rings: seq<EffectRing>, calls: seq<Call>, d: DeletionState, d2: DeletionState) {
    && d2.st.host == d.st.host
    && d2.st.passive.update == d.st.passive.update
    && d2.st.passive.unmount == d.st.passive.unmount + rings
    && d2.st.calls == d.st.calls + calls
  }

  /** Where `temp` may be: unset, or at a strict ancestor. */
  predicate TempAbove(d: DeletionState, path: seq<Frame>) {
    d.temp.Some? ==> |d.temp.value| < |path|
  }

  /** Outside any host fiber, a subtree's topmost host fibers are found
      and `temp` is clear again afterwards; inside one, nothing is found
      and `temp` stays. */
  predicate Collected(t: seq<Fiber>, d: DeletionState, d2: DeletionState) {
    if d.temp.None? then d2.temp.None? && d2.roots == d.roots + t
    else d2.temp == d.temp && d2.roots == d.roots
  }

  /** What one fiber contributes to the queued effect lists and the
      calls. */
  function OwnRings(f: Fiber): seq<EffectRing> {
    if Queues(f, UnmountList) then [f.updateQueue.lastEffect.value] else []
  }

  function OwnDetaches(f: Fiber, ref: Value): seq<Call> {
    if f.tag == HostComponent && ref != Null then [RefDetach(ref)] else []
  }

  lemma UnmountStep(ref: Value, z: Zipper, d: DeletionState)
    ensures var r := Unmount(ref, z, d);
            var f := z.focus.fiber;
            r.Success? ==>
              && Unmounted(ref, OwnRings(f), OwnDetaches(f, ref), d, r.value.1)
              && (if d.temp.None? && IsHost(f) then r.value.1.temp == Some(Address(z.path)) && r.value.1.roots == d.roots + [f]
                  else r.value.1.temp == d.temp && r.value.1.roots == d.roots)
  {
  }

  lemma UnmountedChain(ref: Value, r1: seq<EffectRing>, c1: seq<Call>, r2: seq<EffectRing>, c2: seq<Call>,
                       d: DeletionState, d1: DeletionState, d2: DeletionState, d3: DeletionState)
    requires Unmounted(ref, r1, c1, d, d1) && Unmounted(ref, r2, c2, d1, d2)
    requires d3.st == d2.st
    ensures Unmounted(ref, r1 + r2, c1 + c2, d, d3)
  {
    assert d.st.passive.unmount + r1 + r2 == d.st.passive.unmount + (r1 + r2);
    assert d.st.calls + c1 + c2 == d.st.calls + (c1 + c2);
  }

  lemma CollectedChain(a: seq<Fiber>, b: seq<Fiber>, d: DeletionState, d1: DeletionState, d2: DeletionState)
    requires Collected(a, d, d1) && Collected(b, d1, d2)
    ensures Collected(a + b, d, d2)
  {
    if d.temp.None? {
      assert d.roots + a + b == d.roots + (a + b);
    }
  }

  /** The two steps of the corrected deletion visitor. */
  lemma DeletionSteps(ref: Value, z: Zipper, d: DeletionState)
    ensures DeletionVisitor(ref, false).pre(z, d) == Unmount(ref, z, d)
    ensures DeletionVisitor(ref, false).post(z, d) == Leave(z, d)
    ensures DeletionVisitor(ref, false).descend(z.focus.fiber)
  {
  }

  lemma {:induction false} VisitDeletes(ref: Value, z: Zipper, d: DeletionState)
    requires TempAbove(d, z.path)
    ensures var r := Visit(DeletionVisitor(ref, false), z, d);
            r.Success? ==> r.value.0 == z && Collected(TopHosts(z.focus), d, r.value.1)
                           && Unmounted(ref, FcRings(z.focus), Detaches(z.focus, ref), d, r.value.1)
    decreases Size(z.focus), 1
  {
    DeletionSteps(ref, z, d);
    if Unmount(ref, z, d).Success? {
      if z.focus.kids != [] {
        VisitDeletesInner(ref, z, d);
      } else {
        VisitDeletesLeaf(ref, z, d);
      }
    }
  }

  lemma VisitDeletesLeaf(ref: Value, z: Zipper, d: DeletionState)
    requires TempAbove(d, z.path) && Unmount(ref, z, d).Success? && z.focus.kids == []
    ensures var r := Visit(DeletionVisitor(ref, false), z, d);
            r.Success? ==> r.value.0 == z && Collected(TopHosts(z.focus), d, r.value.1)
                           && Unmounted(ref, FcRings(z.focus), Detaches(z.focus, ref), d, r.value.1)
  {
    var v := DeletionVisitor(ref, false);
    var f := z.focus.fiber;
    DeletionSteps(ref, z, d);
    UnmountStep(ref, z, d);
    var d1 := Unmount(ref, z, d).value.1;
    DeletionSteps(ref, z, d1);
    VisitSkips(v, z, d);
    assert FcRings(z.focus) == OwnRings(f) + FcRingsAll(z.focus.kids);
    assert Detaches(z.focus, ref) == OwnDetaches(f, ref) + DetachesAll(z.focus.kids, ref);
    assert TopHostsAll(z.focus.kids) == [] && FcRingsAll(z.focus.kids) == [] && DetachesAll(z.focus.kids, ref) == [];
    assert |Address(z.path)| == |z.path|;
    var d3 := Leave(z, d1).value.1;
    UnmountedChain(ref, OwnRings(f), OwnDetaches(f, ref), [], [], d, d1, d1, d3);
  }

  lemma {:induction false} VisitDeletesInner(ref: Value, z: Zipper, d: DeletionState)
    requires TempAbove(d, z.path) && Unmount(ref, z, d).Success? && z.focus.kids != []
    ensures var r := Visit(DeletionVisitor(ref, false), z, d);
            r.Success? ==> r.value.0 == z && Collected(TopHosts(z.focus), d, r.value.1)
                           && Unmounted(ref, FcRings(z.focus), Detaches(z.focus, ref), d, r.value.1)
    decreases Size(z.focus), 0
  {
    var v := DeletionVisitor(ref, false);
    var f := z.focus.fiber;
    DeletionSteps(ref, z, d);
    UnmountStep(ref, z, d);
    var d1 := Unmount(ref, z, d).value.1;
    VisitEnters(v, z, d);
    var dn := Down(z);
    DownKeepsTree(z);
    assert |Address(z.path)| == |z.path|;
    assert TempAbove(d1, dn.path);
    VisitKidsDeletes(ref, dn, d1);
    var rk := VisitKids(v, dn, d1);
    if rk.Success? {
      var dk := rk.value.1;
      assert Up(rk.value.0) == z;
      DeletionSteps(ref, z, dk);
      var d3 := Leave(z, dk).value.1;
      assert FcRings(z.focus) == OwnRings(f) + FcRingsAll(z.focus.kids);
      assert Detaches(z.focus, ref) == OwnDetaches(f, ref) + DetachesAll(z.focus.kids, ref);
      UnmountedChain(ref, OwnRings(f), OwnDetaches(f, ref), FcRingsAll(z.focus.kids), DetachesAll(z.focus.kids, ref), d, d1, dk, d3);
      if !IsHost(f) {
        assert TopHosts(z.focus) == TopHostsAll(z.focus.kids);
      }
    }
  }

  lemma {:induction false} VisitKidsDeletes(ref: Value, z: Zipper, d: DeletionState)
    requires z.path != [] && TempAbove(d, z.path)
    ensures var r := VisitKids(DeletionVisitor(ref, false), z, d);
            var ts := [z.focus] + Last(z.path).right;
            r.Success? ==> Up(r.value.0) == Up(z) && Collected(TopHostsAll(ts), d, r.value.1)
                           && Unmounted(ref, FcRingsAll(ts), DetachesAll(ts, ref), d, r.value.1)
    decreases Size(z.focus) + SizeAll(Last(z.path).right), 2
  {
    var v := DeletionVisitor(ref, false);
    var right := Last(z.path).right;
    var ts := [z.focus] + right;
    assert ts[0] == z.focus && ts[1..] == right;
    VisitDeletes(ref, z, d);
    VisitKidsStep(v, z, d);
    var r1 := Visit(v, z, d);
    if r1.Success? {
      var d1 := r1.value.1;
      if HasSibling(z) {
        SiblingsDelete(ref, z, d, d1);
      } else {
        assert right == [];
        UnmountedChain(ref, FcRings(z.focus), Detaches(z.focus, ref), [], [], d, d1, d1, d1);
        CollectedChain(TopHosts(z.focus), [], d, d1, d1);
      }
    }
  }

  /** The step to the right sibling of `VisitKidsDeletes`, from the state
      `d1` after the first one. */
  lemma {:induction false} SiblingsDelete(ref: Value, z: Zipper, d: DeletionState, d1: DeletionState)
    requires HasSibling(z) && TempAbove(d, z.path)
    requires Collected(TopHosts(z.focus), d, d1) && Unmounted(ref, FcRings(z.focus), Detaches(z.focus, ref), d, d1)
    ensures var r := VisitKids(DeletionVisitor(ref, false), Right(z), d1);
            var ts := [z.focus] + Last(z.path).right;
            r.Success? ==> Up(r.value.0) == Up(z) && Collected(TopHostsAll(ts), d, r.value.1)
                           && Unmounted(ref, FcRingsAll(ts), DetachesAll(ts, ref), d, r.value.1)
    decreases SizeAll(Last(z.path).right), 3
  {
    var right := Last(z.path).right;
    var ts := [z.focus] + right;
    assert ts[0] == z.focus && ts[1..] == right;
    var r := Right(z);
    SizeAllAppend([r.focus], Last(r.path).right);
    assert [r.focus] + Last(r.path).right == right;
    assert TempAbove(d1, r.path);
    VisitKidsDeletes(ref, r, d1);
    UpRight(z);
    var rk := VisitKids(DeletionVisitor(ref, false), r, d1);
    if rk.Success? {
      UnmountedChain(ref, FcRings(z.focus), Detaches(z.focus, ref), FcRingsAll(right), DetachesAll(right, ref), d, d1, rk.value.1, rk.value.1);
      CollectedChain(TopHosts(z.focus), TopHostsAll(right), d, d1, rk.value.1);
    }
  }


  /** The corrected walk remembers exactly the topmost host fibers of the
      deleted subtree, queues every function component's effect list for
      unmount in preorder, and detaches the deleted fiber's ref once per
      host component. */
  lemma DeletionWalkFindsTopHosts(child: FTree, st: CommitState)
    ensures var r := DeletionWalk(child, false, st);
            r.Success? ==> r.value.roots == TopHosts(child) && r.value.temp.None?
                           && r.value.st.host == st.host
                           && r.value.st.passive == st.passive.(unmount := st.passive.unmount + FcRings(child))
                           && r.value.st.calls == st.calls + Detaches(child, child.fiber.ref)
  {
    var v := DeletionVisitor(child.fiber.ref, false);
    var d := DeletionState(st, None, []);
    WalkIsVisit(v, child, d);
    VisitDeletes(child.fiber.ref, Zipper(child, []), d);
  }

  /** `commitDeletion` removes from the host parent exactly the nodes of
      the topmost host fibers of the deleted subtree, in tree order. */
  lemma CommitDeletionRemovesTopHosts(child: FTree, parent: nat, st: CommitState)
    requires DeletionWalk(child, false, st).Success?
    ensures var r := CommitDeletion(child, Some(parent), st);
            var d := DeletionWalk(child, false, st).value;
            TopHosts(child) != [] ==> r == (match RemoveAll(TopHosts(child), parent, d.st.host)
                                            case Failure(e) => Failure(e)
                                            case Success(h) => Success(d.st.(host := h)))
  {
    DeletionWalkFindsTopHosts(child, st);
  }

  /** On a deleted fiber without children the two walks differ only in
      `temp`. */
  lemma LeafWalksAgree(child: FTree, st: CommitState)
    requires child.kids == []
    ensures DeletionWalk(child, true, st).Success? == DeletionWalk(child, false, st).Success?
    ensures DeletionWalk(child, true, st).Failure? ==> DeletionWalk(child, true, st) == DeletionWalk(child, false, st)
    ensures DeletionWalk(child, true, st).Success? ==>
              DeletionWalk(child, true, st).value.roots == DeletionWalk(child, false, st).value.roots
              && DeletionWalk(child, true, st).value.st == DeletionWalk(child, false, st).value.st
  {
    DeletionWalkIsVisit(child, true, st);
    DeletionWalkIsVisit(child, false, st);
    var z := Zipper(child, []);
    assert WithFiber(z, z.focus.fiber) == z;
  }

  lemma LeafDeletionsAgree(child: FTree, hostParent: Option<nat>, st: CommitState)
    ensures child.kids == [] ==>
              (match DeletionWalk(child, true, st)
               case Failure(e) => Failure(e)
               case Success(d) => RemoveRoots(d, hostParent)) == CommitDeletion(child, hostParent, st)
  {
    if child.kids == [] {
      LeafWalksAgree(child, st);
      var w1 := DeletionWalk(child, true, st);
      var w2 := DeletionWalk(child, false, st);
      if w1.Success? {
        assert RemoveRoots(w1.value, hostParent) == RemoveRoots(w2.value, hostParent);
      }
    }
  }

  // ---------------------------------------------------------------- examples

  /** A text fiber with host node `id`. */
  function TextFiber(id: nat): Fiber {
    NewFiber(HostText, Null, Null).(stateNode := HostInstance(id))
  }

  /** A fragment holding two texts, whose nodes 2 and 3 sit in container 1. */
  function TwoTexts(): FTree {
    Node(NewFiber(Fragment, Null, Null), [Node(TextFiber(2), []), Node(TextFiber(3), [])])
  }

  function TwoTextsHost(): Host {
    Host(4, map[1 := Container([2, 3]), 2 := TextInstance(Str("a"), ParentId(1)), 3 := TextInstance(Str("b"), ParentId(1))])
  }

  /** As written, the walk over the fragment remembers only the first text:
      `temp` still holds it when the second is reached. */
  lemma StaleTempSkipsSecondText(st: CommitState)
    ensures var r := DeletionWalk(TwoTexts(), true, st);
            r.Success? && r.value.roots == [TextFiber(2)]
  {
    AsWrittenFragmentOfTwoTexts(TwoTexts(), st);
  }

  /** As written, the walk over a fragment holding two texts remembers
      only the first one. */
  lemma AsWrittenFragmentOfTwoTexts(t: FTree, st: CommitState)
    requires t.fiber.tag == Fragment && t.fiber.ref == Null && |t.kids| == 2
    requires t.kids[0].kids == [] && t.kids[0].fiber.tag == HostText
    requires t.kids[1].kids == [] && t.kids[1].fiber.tag == HostText
    ensures DeletionWalk(t, true, st) == Success(DeletionState(st, Some([0]), [t.kids[0].fiber]))
  {
    var v := DeletionVisitor(Null, true);
    var d0 := DeletionState(st, None, []);
    var z := Zipper(t, []);
    var d1 := DeletionState(st, Some([0]), [t.kids[0].fiber]);
    DeletionWalkIsVisit(t, true, st);
    FragmentStepsAsWritten(z, d0);
    FragmentStepsAsWritten(z, d1);
    AsWrittenFragmentKids(t, st);
    VisitEntersWith(v, z, d0, d0, Right(Down(z)), d1, t.fiber, d1);
  }

  lemma DeletionWalkIsVisit(child: FTree, asWritten: bool, st: CommitState)
    ensures DeletionWalk(child, asWritten, st)
            == (match Visit(DeletionVisitor(child.fiber.ref, asWritten), Zipper(child, []), DeletionState(st, None, []))
                case Failure(err) => Failure(err)
                case Success((_, d)) => Success(d))
  {
    WalkIsVisit(DeletionVisitor(child.fiber.ref, asWritten), child, DeletionState(st, None, []));
  }

  /** A fragment at the top, as written: nothing on the way down, and
      nothing on the way up unless it is the remembered fiber. */
  lemma FragmentStepsAsWritten(z: Zipper, d: DeletionState)
    requires z.focus.fiber.tag == Fragment && z.path == [] && d.temp != Some([])
    ensures DeletionVisitor(Null, true).pre(z, d) == Success((z.focus.fiber, d))
    ensures DeletionVisitor(Null, true).post(z, d) == Success((z.focus.fiber, d))
    ensures DeletionVisitor(Null, true).descend(z.focus.fiber)
  {
  }

  /** The children of that fragment: the first text is remembered, and
      the walk ends at the second. */
  lemma AsWrittenFragmentKids(t: FTree, st: CommitState)
    requires |t.kids| == 2
    requires t.kids[0].kids == [] && t.kids[0].fiber.tag == HostText
    requires t.kids[1].kids == [] && t.kids[1].fiber.tag == HostText
    ensures var z := Zipper(t, []);
            var a := Down(z);
            && VisitKids(DeletionVisitor(Null, true), a, DeletionState(st, None, []))
               == Success((Right(a), DeletionState(st, Some([0]), [t.kids[0].fiber])))
            && Up(Right(a)) == z
  {
    var z := Zipper(t, []);
    var a := Down(z);
    assert a.focus == t.kids[0] && Last(a.path).right == [t.kids[1]];
    assert Address(a.path) == [0];
    var d0 := DeletionState(st, None, []);
    assert DeletionState(st, Some([0]), [t.kids[0].fiber]) == d0.(temp := Some(Address(a.path)), roots := d0.roots + [a.focus.fiber]);
    AsWrittenTwoTexts(a, d0);
    UpRight(a);
    DownKeepsTree(z);
  }

  /** As written, a text without children is remembered when `temp` is
      unset, and `temp` is left set after it. */
  lemma AsWrittenTextLeaf(z: Zipper, d: DeletionState)
    requires z.focus.kids == [] && z.focus.fiber.tag == HostText
    ensures Visit(DeletionVisitor(Null, true), z, d)
            == Success((z, if d.temp.None? then d.(temp := Some(Address(z.path)), roots := d.roots + [z.focus.fiber]) else d))
  {
    assert WithFiber(z, z.focus.fiber) == z;
  }

  /** As written, of two sibling texts only the first is remembered. */
  lemma AsWrittenTwoTexts(a: Zipper, d: DeletionState)
    requires a.path != [] && a.focus.kids == [] && a.focus.fiber.tag == HostText && d.temp.None?
    requires |Last(a.path).right| == 1 && Last(a.path).right[0].kids == [] && Last(a.path).right[0].fiber.tag == HostText
    ensures VisitKids(DeletionVisitor(Null, true), a, d)
            == Success((Right(a), d.(temp := Some(Address(a.path)), roots := d.roots + [a.focus.fiber])))
  {
    var d1 := d.(temp := Some(Address(a.path)), roots := d.roots + [a.focus.fiber]);
    AsWrittenTextLeaf(a, d);
    var b := Right(a);
    assert b.focus == Last(a.path).right[0] && !HasSibling(b);
    AsWrittenTextLeaf(b, d1);
  }

  /** The corrected walk remembers both texts. */
  lemma LeavingClearsTemp(st: CommitState)
    ensures var r := DeletionWalk(TwoTexts(), false, st);
            r.Success? ==> r.value.roots == [TextFiber(2), TextFiber(3)]
  {
    var t := TwoTexts();
    DeletionWalkFindsTopHosts(t, st);
    assert t.kids[1..] == [Node(TextFiber(3), [])];
    assert t.kids[1..][1..] == [];
    assert TopHostsAll(t.kids) == [TextFiber(2)] + ([TextFiber(3)] + []);
  }

  lemma ChildlessTextWalk(st: CommitState)
    ensures DeletionWalk(Node(TextFiber(2), []), false, st)
            == Success(DeletionState(st, None, [TextFiber(2)]))
  {
    var t := Node(TextFiber(2), []);
    var v := DeletionVisitor(Null, false);
    var d0 := DeletionState(st, None, []);
    var z := Zipper(t, []);
    WalkIsVisit(v, t, d0);
    var d1 := d0.(temp := Some([]), roots := [TextFiber(2)]);
    assert d0.roots + [TextFiber(2)] == [TextFiber(2)];
    assert Address(z.path) == [];
    assert Unmount(Null, z, d0) == Success((TextFiber(2), d1));
    assert v.pre(z, d0) == Success((TextFiber(2), d1));
    assert WithFiber(z, TextFiber(2)) == z;
    assert v.post(z, d1) == Success((TextFiber(2), d1.(temp := None)));
  }

  /** Removing a fiber whose node is 2 from a container 1 holding 2 and 3
      leaves node 3 alone there. */
  lemma RemoveFirstText(f: Fiber, h: Host)
    requires f.stateNode == HostInstance(2) && 1 in h.nodes && h.nodes[1] == Container([2, 3])
    ensures var r := RemoveAll([f], 1, h);
            r.Success? && 1 in r.value.nodes && IsParentNode(r.value.nodes[1])
            && ChildrenOf(r.value.nodes[1]) == [3]
  {
    RemoveTwoFromTwoThree();
    RemoveAllSingle(f, 1, h);
    assert 2 in ChildrenOf(h.nodes[1]);
  }

  lemma RemoveAllSingle(f: Fiber, parent: nat, h: Host)
    ensures RemoveAll([f], parent, h) == RemoveHost(f, parent, h)
  {
    assert [f][1..] == [];
  }

  lemma TwoTextsInContainer()
    ensures 1 in TwoTextsHost().nodes && TwoTextsHost().nodes[1] == Container([2, 3])
  {
  }

  lemma RemoveTwoFromTwoThree()
    ensures RemoveFirst([2, 3], 2) == [3]
  {
    assert IndexOf([2, 3], 2) == 0;
    assert [2, 3][..0] + [2, 3][1..] == [3];
  }

  /** A childless deleted fiber with a sibling: as written the deletion
      throws, while the walk kept to the subtree removes its node. */
  lemma ChildlessWithSiblingThrows(st: CommitState)
    requires st.host == TwoTextsHost()
    ensures CommitDeletionAsWritten(Node(TextFiber(2), []), true, Some(1), st).Failure?
    ensures var r := CommitDeletion(Node(TextFiber(2), []), Some(1), st);
            r.Success? && 1 in r.value.host.nodes && IsParentNode(r.value.host.nodes[1])
            && ChildrenOf(r.value.host.nodes[1]) == [3]
  {
    var d := DeletionState(st, None, [TextFiber(2)]);
    ChildlessTextWalk(st);
    TwoTextsInContainer();
    RemoveFirstText(TextFiber(2), st.host);
    var h := RemoveAll([TextFiber(2)], 1, st.host).value;
    assert RemoveRoots(d, Some(1)) == Success(st.(host := h));
    assert CommitDeletion(Node(TextFiber(2), []), Some(1), st) == RemoveRoots(d, Some(1));
  }
}
