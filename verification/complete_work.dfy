/** The "complete" half of rendering a fiber
    (packages/react-reconciler/src/completeWork.ts): make or mark the host
    node of a host fiber, and bubble the children's flags up.

    `completeWork` works on a fiber whose children are already complete,
    so it takes the fiber with its subtree (`FTree`) and the host store,
    and gives back the new fiber and store. */
module CompleteWork {
  import opened Wrappers
  import opened JsValues
  import opened FiberFlags
  import opened Fibers
  import opened NoopHost
  import opened TreeWalk

  /** `markUpdate(fiber)`: sets `Update` and no other bit. */
  function MarkUpdate(f: Fiber): (r: Fiber)
    ensures HasAny(r.flags, Update)
    ensures r.flags & !Update == f.flags & !Update
    ensures HasAny(f.flags, Update) ==> r == f
    ensures r == f.(flags := r.flags)
  {
    SetUpdateHas(f.flags);
    SetUpdateKeepsOthers(f.flags);
    SetUpdateIdempotent(f.flags);
    f.(flags := f.flags | Update)
  }

  lemma SetUpdateHas(x: Flags)
    ensures HasAny(x | Update, Update)
  {
  }

  lemma SetUpdateKeepsOthers(x: Flags)
    ensures (x | Update) & !Update == x & !Update
  {
  }

  lemma SetUpdateIdempotent(x: Flags)
    ensures HasAny(x, Update) ==> x | Update == x
  {
  }

  // ---------------------------------------------------------------- bubbleProperties

  /** The union of a list of flag sets. */
  function OrAll(bs: seq<Flags>): Flags
    decreases |bs|
  {
    if bs == [] then NoFlags else bs[0] | OrAll(bs[1..])
  }

  /** What each child brings up: its own flags and its subtree's. */
  function KidBits(kids: seq<FTree>): (bs: seq<Flags>)
    ensures |bs| == |kids|
  {
    seq(|kids|, i requires 0 <= i < |kids| => kids[i].fiber.subtreeFlags | kids[i].fiber.flags)
  }

  /** The union of every child's `flags` and `subtreeFlags`. */
  function ChildFlags(kids: seq<FTree>): Flags {
    OrAll(KidBits(kids))
  }

  /** `bubbleProperties(wip)`: adds the children's flags to `subtreeFlags`,
      keeping the bits it had. */
  function BubbleProperties(wip: Fiber, kids: seq<FTree>): (r: Fiber)
    ensures r == wip.(subtreeFlags := r.subtreeFlags)
  {
    wip.(subtreeFlags := wip.subtreeFlags | ChildFlags(kids))
  }

  /** Bubbling never clears a bit, and a childless fiber is unchanged. */
  lemma BubbleKeeps(wip: Fiber, kids: seq<FTree>)
    ensures Contains(BubbleProperties(wip, kids).subtreeFlags, wip.subtreeFlags)
  {
    UnionContainsLeft(wip.subtreeFlags, ChildFlags(kids));
  }

  lemma BubbleNoKids(wip: Fiber)
    ensures BubbleProperties(wip, []) == wip
  {
    OrNothing(wip.subtreeFlags);
  }

  lemma OrNothing(a: Flags)
    ensures a | NoFlags == a
  {
  }

  lemma ContainsJoin(a: Flags, b: Flags, c: Flags)
    requires Contains(b, c)
    ensures Contains(a | b, c)
  {
  }

  lemma UnionContainsLeft(a: Flags, b: Flags)
    ensures Contains(a | b, a)
  {
  }

  lemma OrNotLeft(a: Flags, b: Flags, bit: Flags)
    requires HasAny(a | b, bit) && !HasAny(a, bit)
    ensures HasAny(b, bit)
  {
  }

  lemma {:induction false} OrAllHas(bs: seq<Flags>, i: nat)
    requires i < |bs|
    ensures Contains(OrAll(bs), bs[i])
    decreases |bs|
  {
    if i == 0 {
      UnionContainsLeft(bs[0], OrAll(bs[1..]));
    } else {
      OrAllHas(bs[1..], i - 1);
      assert bs[1..][i - 1] == bs[i];
      ContainsJoin(bs[0], OrAll(bs[1..]), bs[i]);
    }
  }

  lemma {:induction false} OrAllFrom(bs: seq<Flags>, bit: Flags)
    requires HasAny(OrAll(bs), bit)
    ensures exists i :: 0 <= i < |bs| && HasAny(bs[i], bit)
    decreases |bs|
  {
    if bs == [] {
      assert false;
    } else if !HasAny(bs[0], bit) {
      OrNotLeft(bs[0], OrAll(bs[1..]), bit);
      OrAllFrom(bs[1..], bit);
      var j :| 0 <= j < |bs[1..]| && HasAny(bs[1..][j], bit);
      assert bs[1..][j] == bs[j + 1];
    }
  }

  /** A child's subtree and own flags, together, are among the children's. */
  lemma ChildFlagsHas(kids: seq<FTree>, i: nat)
    requires i < |kids|
    ensures Contains(ChildFlags(kids), kids[i].fiber.subtreeFlags | kids[i].fiber.flags)
  {
    OrAllHas(KidBits(kids), i);
    assert KidBits(kids)[i] == kids[i].fiber.subtreeFlags | kids[i].fiber.flags;
  }

  /** The children's flags all end up in the parent's subtree flags;
      with `ChildFlagsHas`, so does each child's `flags | subtreeFlags`. */
  lemma BubbleCollects(wip: Fiber, kids: seq<FTree>)
    ensures Contains(BubbleProperties(wip, kids).subtreeFlags, ChildFlags(kids))
  {
    UnionContainsRight(wip.subtreeFlags, ChildFlags(kids));
  }

  lemma UnionContainsRight(a: Flags, b: Flags)
    ensures Contains(a | b, b)
  {
  }

  /** And nothing else: a bit the parent gains was set on some child. */
  lemma BubbleAddsOnlyChildBits(wip: Fiber, kids: seq<FTree>, bit: Flags)
    requires HasAny(BubbleProperties(wip, kids).subtreeFlags, bit) && !HasAny(wip.subtreeFlags, bit)
    ensures exists i :: 0 <= i < |kids| && HasAny(kids[i].fiber.subtreeFlags | kids[i].fiber.flags, bit)
  {
    OrNotLeft(wip.subtreeFlags, ChildFlags(kids), bit);
    OrAllFrom(KidBits(kids), bit);
    var i :| 0 <= i < |kids| && HasAny(KidBits(kids)[i], bit);
    assert KidBits(kids)[i] == kids[i].fiber.subtreeFlags | kids[i].fiber.flags;
  }

  // ---------------------------------------------------------------- appendAllChildren

  /** The topmost host fibers of a subtree, in tree order: a host fiber
      stands for its whole subtree. */
  function TopHosts(t: FTree): seq<Fiber>
    decreases t
  {
    if IsHost(t.fiber) then [t.fiber] else TopHostsAll(t.kids)
  }

  function TopHostsAll(ts: seq<FTree>): seq<Fiber>
    decreases ts
  {
    if ts == [] then [] else TopHosts(ts[0]) + TopHostsAll(ts[1..])
  }

  /** `appendInitialChild(parent, fiber.stateNode)`. A fiber without a host
      node of its own throws on `child.parent`. */
  function AppendFiber(parent: nat, f: Fiber, h: Host): (r: Result<Host, JsError>)
    ensures r.Success? ==> r.value.nextId == h.nextId && r.value.nodes.Keys == h.nodes.Keys
    ensures r.Success? ==> parent in h.nodes && IsParentNode(h.nodes[parent])
                           && f.stateNode.HostInstance? && f.stateNode.id in h.nodes
                           && IsParentNode(r.value.nodes[parent])
                           && ChildrenOf(r.value.nodes[parent]) == ChildrenOf(h.nodes[parent]) + [f.stateNode.id]
  {
    if parent !in h.nodes || !IsParentNode(h.nodes[parent]) then Failure(TypeError("Cannot read properties of undefined (reading 'children')"))
    else match f.stateNode
      case HostInstance(id) =>
        if id in h.nodes && IsChildNode(h.nodes[id]) then AppendInitialChild(h, parent, id)
        else Failure(TypeError("Cannot read properties of undefined (reading 'parent')"))
      case _ => Failure(TypeError("Cannot read properties of null (reading 'parent')"))
  }

  /** Appending fibers one after another. */
  function AppendAll(parent: nat, fs: seq<Fiber>, h: Host): (r: Result<Host, JsError>)
    ensures r.Success? ==> r.value.nextId == h.nextId && r.value.nodes.Keys == h.nodes.Keys
    decreases |fs|
  {
    if fs == [] then Success(h)
    else
      var h1 :- AppendFiber(parent, fs[0], h);
      AppendAll(parent, fs[1..], h1)
  }

  /** The host ids of fibers. */
  function HostIds(fs: seq<Fiber>): seq<nat>
    requires forall i :: 0 <= i < |fs| ==> fs[i].stateNode.HostInstance?
  {
    seq(|fs|, i requires 0 <= i < |fs| => fs[i].stateNode.id)
  }

  /** Every appended fiber has a host node of its own. */
  lemma {:induction false} AppendAllNodes(parent: nat, fs: seq<Fiber>, h: Host)
    requires AppendAll(parent, fs, h).Success?
    ensures forall i :: 0 <= i < |fs| ==> fs[i].stateNode.HostInstance?
    decreases |fs|
  {
    if fs != [] {
      var h1 := AppendFiber(parent, fs[0], h).value;
      AppendAllNodes(parent, fs[1..], h1);
      forall i | 0 <= i < |fs| ensures fs[i].stateNode.HostInstance? {
        if i > 0 {
          assert fs[i] == fs[1..][i - 1];
        }
      }
    }
  }

  lemma HostIdsCons(fs: seq<Fiber>)
    requires fs != [] && forall i :: 0 <= i < |fs| ==> fs[i].stateNode.HostInstance?
    ensures HostIds(fs) == [fs[0].stateNode.id] + HostIds(fs[1..])
  {
  }

  /** After appending, the parent's children are the old ones followed by
      the fibers' host nodes, in order. */
  lemma {:induction false} AppendAllOrder(parent: nat, fs: seq<Fiber>, h: Host)
    requires AppendAll(parent, fs, h).Success?
    ensures forall i :: 0 <= i < |fs| ==> fs[i].stateNode.HostInstance?
    ensures parent in h.nodes ==>
              var h1 := AppendAll(parent, fs, h).value;
              parent in h1.nodes && IsParentNode(h1.nodes[parent]) == IsParentNode(h.nodes[parent])
              && (IsParentNode(h.nodes[parent]) ==>
                    ChildrenOf(h1.nodes[parent]) == ChildrenOf(h.nodes[parent]) + HostIds(fs))
    decreases |fs|
  {
    AppendAllNodes(parent, fs, h);
    if fs != [] {
      var h1 := AppendFiber(parent, fs[0], h).value;
      AppendAllOrder(parent, fs[1..], h1);
      HostIdsCons(fs);
    }
  }

  lemma {:induction false} AppendAllConcat(parent: nat, a: seq<Fiber>, b: seq<Fiber>, h: Host)
    ensures AppendAll(parent, a + b, h) == (match AppendAll(parent, a, h)
                                           case Failure(err) => Failure(err)
                                           case Success(h1) => AppendAll(parent, b, h1))
    decreases |a|
  {
    if a == [] {
      assert a + b == b;
    } else {
      assert (a + b)[0] == a[0];
      assert (a + b)[1..] == a[1..] + b;
      match AppendFiber(parent, a[0], h)
      case Failure(_) =>
      case Success(h1) => AppendAllConcat(parent, a[1..], b, h1);
    }
  }

  /** On the way down: append a host fiber's node; do not go below it. */
  function AppendStep(parent: nat, z: Zipper, h: Host): Result<(Fiber, Host), JsError> {
    var f := z.focus.fiber;
    if IsHost(f) then
      var h1 :- AppendFiber(parent, f, h);
      Success((f, h1))
    else Success((f, h))
  }

  function AppendVisitor(parent: nat): Visitor<Host> {
    Visitor((z, h) => AppendStep(parent, z, h), f => !IsHost(f), (z: Zipper, h: Host) => Success((z.focus.fiber, h)))
  }

  /** `appendAllChildren(parent, wip)`, the source's loop from `wip.child`
      back up to `wip`. */
  function AppendAllChildren(parent: nat, wip: FTree, h: Host): Result<Host, JsError> {
    if wip.kids == [] then Success(h)
    else
      match WalkDown(AppendVisitor(parent), Down(Zipper(wip, [])), h)
      case Failure(err) => Failure(err)
      case Success((_, h1)) => Success(h1)
  }

  function HostOf(r: Result<(Zipper, Host), JsError>): Result<Host, JsError> {
    match r
    case Failure(err) => Failure(err)
    case Success((_, h)) => Success(h)
  }

  lemma {:induction false} VisitAppends(parent: nat, z: Zipper, h: Host)
    ensures HostOf(Visit(AppendVisitor(parent), z, h)) == AppendAll(parent, TopHosts(z.focus), h)
    ensures Visit(AppendVisitor(parent), z, h).Success? ==> Visit(AppendVisitor(parent), z, h).value.0 == z
    decreases Size(z.focus), 1
  {
    if IsHost(z.focus.fiber) {
      VisitAppendsHost(parent, z, h);
    } else if z.focus.kids != [] {
      VisitAppendsInner(parent, z, h);
    } else {
      assert WithFiber(z, z.focus.fiber) == z;
    }
  }

  /** A host fiber: its own node is appended, and nothing below it. */
  lemma VisitAppendsHost(parent: nat, z: Zipper, h: Host)
    requires IsHost(z.focus.fiber)
    ensures HostOf(Visit(AppendVisitor(parent), z, h)) == AppendAll(parent, TopHosts(z.focus), h)
    ensures Visit(AppendVisitor(parent), z, h).Success? ==> Visit(AppendVisitor(parent), z, h).value.0 == z
  {
    var f := z.focus.fiber;
    assert TopHosts(z.focus) == [f];
    assert WithFiber(z, f) == z;
    match AppendFiber(parent, f, h)
    case Failure(_) =>
    case Success(h1) =>
      assert AppendAll(parent, [f], h) == AppendAll(parent, [], h1);
  }

  lemma {:induction false} VisitAppendsInner(parent: nat, z: Zipper, h: Host)
    requires !IsHost(z.focus.fiber) && z.focus.kids != []
    ensures HostOf(Visit(AppendVisitor(parent), z, h)) == AppendAll(parent, TopHosts(z.focus), h)
    ensures Visit(AppendVisitor(parent), z, h).Success? ==> Visit(AppendVisitor(parent), z, h).value.0 == z
    decreases Size(z.focus), 0
  {
    var v := AppendVisitor(parent);
    var d := Down(z);
    assert v.pre(z, h) == Success((z.focus.fiber, h));
    VisitEnters(v, z, h);
    DownKeepsTree(z);
    VisitKidsAppends(parent, d, h);
    assert [d.focus] + Last(d.path).right == z.focus.kids;
    match VisitKids(v, d, h)
    case Failure(_) =>
    case Success((zk, hk)) =>
      assert Up(zk) == z;
      assert WithFiber(z, z.focus.fiber) == z;
  }

  lemma {:induction false} VisitKidsAppends(parent: nat, z: Zipper, h: Host)
    requires z.path != []
    ensures HostOf(VisitKids(AppendVisitor(parent), z, h))
            == AppendAll(parent, TopHostsAll([z.focus] + Last(z.path).right), h)
    ensures VisitKids(AppendVisitor(parent), z, h).Success? ==>
              Up(VisitKids(AppendVisitor(parent), z, h).value.0) == Up(z)
    decreases Size(z.focus) + SizeAll(Last(z.path).right), 2
  {
    var v := AppendVisitor(parent);
    var all := [z.focus] + Last(z.path).right;
    assert all[0] == z.focus && all[1..] == Last(z.path).right;
    VisitAppends(parent, z, h);
    AppendAllConcat(parent, TopHosts(z.focus), TopHostsAll(Last(z.path).right), h);
    match Visit(v, z, h)
    case Failure(_) =>
    case Success((z1, h1)) =>
      assert z1 == z;
      if HasSibling(z) {
        var r := Right(z);
        VisitKidsAppends(parent, r, h1);
        UpRight(z);
        assert [r.focus] + Last(r.path).right == Last(z.path).right;
      } else {
        assert TopHostsAll(Last(z.path).right) == [];
        assert TopHosts(z.focus) + [] == TopHosts(z.focus);
      }
  }

  /** `appendAllChildren` appends exactly the topmost host fibers under
      `wip`, in tree order, and nothing below them. */
  lemma AppendAllChildrenTopHosts(parent: nat, wip: FTree, h: Host)
    ensures AppendAllChildren(parent, wip, h) == AppendAll(parent, TopHostsAll(wip.kids), h)
  {
    if wip.kids != [] {
      var v := AppendVisitor(parent);
      var d := Down(Zipper(wip, []));
      WalkDownVisitsKids(v, d, h);
      VisitKidsAppends(parent, d, h);
      assert [d.focus] + Last(d.path).right == wip.kids;
      match VisitKids(v, d, h)
      case Failure(_) =>
      case Success((zk, hk)) =>
        DownKeepsTree(Zipper(wip, []));
        assert Up(zk) == Zipper(wip, []);
        assert WithFiber(Zipper(wip, []), wip.fiber) == Zipper(wip, []);
        assert WalkProcess(v, Up(zk), hk) == Success((wip, hk));
    }
  }

  // ---------------------------------------------------------------- completeWork

  /** `current !== null && wip.stateNode`: the fiber already has a host
      node from an earlier commit. */
  predicate IsUpdate(wip: Fiber) {
    wip.alternate.Some? && wip.stateNode != NoStateNode
  }

  /** The tags `completeWork` bubbles. */
  predicate Bubbles(tag: WorkTag) {
    tag == HostComponent || tag == HostText || tag == HostRoot || tag == FunctionComponent || tag == Fragment
  }

  /** `completeWork(wip)` on `wip` and its complete children: tags it
      does not handle pass unchanged, the tags that only bubble get the
      bubbled fiber, and otherwise nothing but the flags, the subtree
      flags and the host node changes. */
  function CompleteWork(wip: FTree, h: Host): (r: Result<(Fiber, Host), JsError>)
    ensures !Bubbles(wip.fiber.tag) ==> r == Success((wip.fiber, h))
    ensures wip.fiber.tag == HostRoot || wip.fiber.tag == FunctionComponent || wip.fiber.tag == Fragment ==>
              r == Success((BubbleProperties(wip.fiber, wip.kids), h))
    ensures r.Success? ==> r.value.0 == wip.fiber.(flags := r.value.0.flags, subtreeFlags := r.value.0.subtreeFlags,
                                                   stateNode := r.value.0.stateNode)
  {
    var f := wip.fiber;
    // bubbleProperties only writes subtreeFlags and markUpdate only flags,
    // so the bubbled value can be computed first
    var sub := BubbleProperties(f, wip.kids).subtreeFlags;
    match f.tag
    case HostComponent =>
      if IsUpdate(f) then Success((MarkUpdate(f).(subtreeFlags := sub), h))
      else
        var (h1, id) := CreateInstance(h, f.typ, f.pendingProps);
        AppendAllChildrenTopHosts(id, wip, h1);
        var h2 :- AppendAllChildren(id, wip, h1);
        Success((f.(stateNode := HostInstance(id), subtreeFlags := sub), h2))
    case HostText =>
      if IsUpdate(f) then
        var oldText :- GetProp(f.alternate.value.fiber.memoizedProps, "content");
        var newText :- GetProp(f.pendingProps, "content");
        var f1 := if oldText != newText then MarkUpdate(f) else f;
        Success((f1.(subtreeFlags := sub), h))
      else
        var content :- GetProp(f.pendingProps, "content");
        var (h1, id) := CreateTextInstance(h, content);
        Success((f.(stateNode := HostInstance(id), subtreeFlags := sub), h1))
    case HostRoot => Success((BubbleProperties(f, wip.kids), h))
    case FunctionComponent => Success((BubbleProperties(f, wip.kids), h))
    case Fragment => Success((BubbleProperties(f, wip.kids), h))
    case _ => Success((f, h))
  }

  /** Every handled tag bubbles the children's flags, and the fiber's own
      flags are either kept or marked for update. */
  lemma CompleteWorkBubbles(wip: FTree, h: Host)
    ensures var r := CompleteWork(wip, h);
            r.Success? && Bubbles(wip.fiber.tag) ==> r.value.0.subtreeFlags == BubbleProperties(wip.fiber, wip.kids).subtreeFlags
    ensures var r := CompleteWork(wip, h);
            r.Success? ==> r.value.0.flags == wip.fiber.flags || r.value.0.flags == MarkUpdate(wip.fiber).flags
  {
    if wip.fiber.tag == HostComponent || wip.fiber.tag == HostText {
      if IsUpdate(wip.fiber) {
        CompleteWorkUpdate(wip, h);
      } else {
        CompleteWorkMount(wip, h);
      }
    }
  }

  /** An update changes no host node; it marks a component always and a
      text when its content changed. */
  lemma CompleteWorkUpdate(wip: FTree, h: Host)
    requires IsUpdate(wip.fiber)
    ensures var r := CompleteWork(wip, h);
            wip.fiber.tag == HostComponent ==> r.Success? && r.value.1 == h && r.value.0.flags == MarkUpdate(wip.fiber).flags
    ensures var r := CompleteWork(wip, h);
            wip.fiber.tag == HostText && r.Success? ==>
              var current := wip.fiber.alternate.value.fiber;
              && r.value.1 == h
              && current.memoizedProps != Null && current.memoizedProps != Undefined
              && wip.fiber.pendingProps != Null && wip.fiber.pendingProps != Undefined
              && r.value.0.flags == (if Prop(current.memoizedProps, "content") != Prop(wip.fiber.pendingProps, "content")
                                     then MarkUpdate(wip.fiber).flags else wip.fiber.flags)
  {
  }

  /** A mount makes the host node and stores it; a component appends its
      topmost host children, and a text needs props to read. */
  lemma CompleteWorkMount(wip: FTree, h: Host)
    requires (wip.fiber.tag == HostComponent || wip.fiber.tag == HostText) && !IsUpdate(wip.fiber)
    ensures var r := CompleteWork(wip, h);
            r.Success? ==>
              && r.value.0.stateNode == HostInstance(h.nextId)
              && r.value.0.flags == wip.fiber.flags
              && r.value.0.subtreeFlags == BubbleProperties(wip.fiber, wip.kids).subtreeFlags
              && h.nextId in r.value.1.nodes && r.value.1.nextId == h.nextId + 1
    ensures var r := CompleteWork(wip, h);
            wip.fiber.tag == HostComponent ==>
              var (h1, id) := CreateInstance(h, wip.fiber.typ, wip.fiber.pendingProps);
              (r.Success? <==> AppendAll(id, TopHostsAll(wip.kids), h1).Success?)
              && (r.Success? ==> r.value.1 == AppendAll(id, TopHostsAll(wip.kids), h1).value)
    ensures var r := CompleteWork(wip, h);
            wip.fiber.tag == HostText ==>
              (r.Failure? <==> wip.fiber.pendingProps == Null || wip.fiber.pendingProps == Undefined)
              && (r.Success? ==> r.value.1 == CreateTextInstance(h, Prop(wip.fiber.pendingProps, "content")).0)
  {
    var f := wip.fiber;
    var sub := BubbleProperties(f, wip.kids).subtreeFlags;
    if f.tag == HostComponent {
      var (h1, id) := CreateInstance(h, f.typ, f.pendingProps);
      AppendAllChildrenTopHosts(id, wip, h1);
      var ra := AppendAll(id, TopHostsAll(wip.kids), h1);
      assert CompleteWork(wip, h) == (if ra.Success? then Success((f.(stateNode := HostInstance(id), subtreeFlags := sub), ra.value))
                                      else Failure(ra.error));
    } else {
      var rc := GetProp(f.pendingProps, "content");
      if rc.Success? {
        var (h1, id) := CreateTextInstance(h, rc.value);
        assert CompleteWork(wip, h) == Success((f.(stateNode := HostInstance(id), subtreeFlags := sub), h1));
      } else {
        assert CompleteWork(wip, h) == Failure(rc.error);
      }
    }
  }
}
