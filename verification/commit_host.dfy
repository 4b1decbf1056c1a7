/** Placing a fiber's host nodes during the mutation pass
    (packages/react-reconciler/src/commitWork.ts: `commitPlacement`,
    `getHostParent`, `getHostSibling`, `insertBeforeSiblingOrAppendIntoParent`).

    The fiber being placed is the focus of a zipper over the finished tree,
    so its ancestors and its following siblings are at hand. */
module CommitHost {
  import opened Wrappers
  import opened JsValues
  import opened FiberFlags
  import opened Fibers
  import opened NoopHost
  import opened TreeWalk
  import opened CompleteWork

  // ---------------------------------------------------------------- getHostParent

  /** The innermost frame whose fiber is a host parent, or -1. */
  function HostParentIndex(path: seq<Frame>): (i: int)
    ensures -1 <= i < |path|
    ensures i >= 0 ==> IsHostParent(path[i].parent)
    ensures forall j :: i < j < |path| ==> !IsHostParent(path[j].parent)
    decreases |path|
  {
    if path == [] then -1
    else if IsHostParent(Last(path).parent) then |path| - 1
    else HostParentIndex(Outer(path))
  }

  /** A host parent's node: a host component's instance, or the host root's
      container. A host component without an instance gives `null`. */
  function HostNodeOf(p: Fiber): Option<nat> {
    match p.stateNode
    case HostInstance(id) => if p.tag == HostComponent then Some(id) else None
    case RootNode(container) => if p.tag == HostRoot then Some(container) else None
    case NoStateNode => None
  }

  /** `getHostParent(fiber)`: the node of the nearest ancestor that is a
      host component or the host root; `null` when there is none. */
  function GetHostParent(path: seq<Frame>): (r: Option<nat>)
    ensures r.Some? ==> exists i :: 0 <= i < |path| && IsHostParent(path[i].parent) && HostNodeOf(path[i].parent) == r
                                    && forall j :: i < j < |path| ==> !IsHostParent(path[j].parent)
    ensures (forall j :: 0 <= j < |path| ==> !IsHostParent(path[j].parent)) ==> r.None?
  {
    var i := HostParentIndex(path);
    if i < 0 then None else HostNodeOf(path[i].parent)
  }

  // ---------------------------------------------------------------- getHostSibling

  /** `isStable`: the fiber is not itself being placed. */
  predicate Stable(f: Fiber) {
    !HasAny(f.flags, Placement)
  }

  /** The `while (node.sibling === null)` climb and the step to the
      sibling: climbing stops, with `null`, at the root or under a host
      parent. */
  function SiblingClimb(z: Zipper): Option<StateNode>
    decreases Rest(z.path), 1
  {
    if HasSibling(z) then SiblingDescend(Right(z))
    else if z.path == [] then None
    else if IsHostParent(Last(z.path).parent) then None
    else SiblingClimb(Up(z))
  }

  /** The downward loop from a sibling: a stable host fiber is the answer,
      an unplaced non-host fiber with a child is entered, and anything else
      sends the search on to the next sibling (`continue findSibling`). */
  function SiblingDescend(z: Zipper): Option<StateNode>
    decreases 2 * Size(z.focus) + Rest(z.path), 0
  {
    var f := z.focus.fiber;
    if IsHost(f) then
      if Stable(f) then Some(f.stateNode) else SiblingClimb(z)
    else if !Stable(f) || z.focus.kids == [] then SiblingClimb(z)
    else SiblingDescend(Down(z))
  }

  /** `getHostSibling(fiber)`. The pointer search agrees with the
      tree-order search: the host sibling is the first stable host fiber
      after the fiber in tree order, not inside a placed subtree, and under
      the same host parent. */
  function GetHostSibling(z: Zipper): (r: Option<StateNode>)
    ensures r == Answer(SearchAfter(z.path))
  {
    ClimbSearches(z);
    SiblingClimb(z)
  }

  /** The outcome of searching part of the tree for a host sibling: found,
      given up (`return null`), or nothing here. */
  datatype Search = Found(node: StateNode) | Stop | NotHere

  function Then(r: Search, rest: Search): Search {
    if r.NotHere? then rest else r
  }

  /** Searching a subtree in tree order: a placed fiber is skipped with its
      subtree, a stable host fiber is the answer, and leaving a host root's
      children ends the search. */
  function SearchTree(t: FTree): Search
    decreases t
  {
    if !Stable(t.fiber) then NotHere
    else if IsHost(t.fiber) then Found(t.fiber.stateNode)
    else
      var r := SearchAll(t.kids);
      if r.NotHere? && IsHostParent(t.fiber) && t.kids != [] then Stop else r
  }

  function SearchAll(ts: seq<FTree>): Search
    decreases ts
  {
    if ts == [] then NotHere else Then(SearchTree(ts[0]), SearchAll(ts[1..]))
  }

  /** What follows a position: its right siblings, then, unless the parent
      is a host parent, whatever follows the parent. */
  function SearchAfter(path: seq<Frame>): Search
    decreases |path|
  {
    if path == [] then Stop
    else Then(SearchAll(Last(path).right),
              if IsHostParent(Last(path).parent) then Stop else SearchAfter(Outer(path)))
  }

  function Answer(r: Search): Option<StateNode> {
    if r.Found? then Some(r.node) else None
  }

  lemma ThenAssoc(a: Search, b: Search, c: Search)
    ensures Then(Then(a, b), c) == Then(a, Then(b, c))
  {
  }

  lemma {:induction false} ClimbSearches(z: Zipper)
    ensures SiblingClimb(z) == Answer(SearchAfter(z.path))
    decreases Rest(z.path), 1
  {
    if HasSibling(z) {
      var r := Right(z);
      var fr := Last(z.path);
      DescendSearches(r);
      assert fr.right[0] == r.focus && fr.right[1..] == Last(r.path).right by {
        assert [r.focus] + Last(r.path).right == fr.right;
      }
      ThenAssoc(SearchTree(fr.right[0]), SearchAll(fr.right[1..]),
                if IsHostParent(fr.parent) then Stop else SearchAfter(Outer(z.path)));
    } else if z.path != [] && !IsHostParent(Last(z.path).parent) {
      ClimbSearches(Up(z));
    }
  }

  lemma {:induction false} DescendSearches(z: Zipper)
    ensures SiblingDescend(z) == Answer(Then(SearchTree(z.focus), SearchAfter(z.path)))
    decreases 2 * Size(z.focus) + Rest(z.path), 0
  {
    var f := z.focus.fiber;
    if IsHost(f) {
      if !Stable(f) {
        ClimbSearches(z);
      }
    } else if !Stable(f) || z.focus.kids == [] {
      ClimbSearches(z);
      if Stable(f) {
        assert SearchAll(z.focus.kids) == NotHere;
      }
    } else {
      var d := Down(z);
      var kids := z.focus.kids;
      DescendSearches(d);
      assert kids[0] == d.focus && kids[1..] == Last(d.path).right by {
        assert [d.focus] + Last(d.path).right == kids;
      }
      ThenAssoc(SearchTree(kids[0]), SearchAll(kids[1..]),
                if IsHostParent(f) then Stop else SearchAfter(z.path));
    }
  }

  /** A found host sibling is the node of a stable host fiber. */
  lemma {:induction false} FoundIsStableHost(t: FTree)
    ensures SearchTree(t).Found? ==> exists h :: h in TopHosts(t) && Stable(h) && h.stateNode == SearchTree(t).node
    decreases t, 1
  {
    if Stable(t.fiber) && !IsHost(t.fiber) {
      FoundIsStableHostAll(t.kids);
    }
  }

  lemma {:induction false} FoundIsStableHostAll(ts: seq<FTree>)
    ensures SearchAll(ts).Found? ==> exists h :: h in TopHostsAll(ts) && Stable(h) && h.stateNode == SearchAll(ts).node
    decreases ts, 0
  {
    if ts != [] {
      FoundIsStableHost(ts[0]);
      FoundIsStableHostAll(ts[1..]);
      assert TopHostsAll(ts) == TopHosts(ts[0]) + TopHostsAll(ts[1..]);
    }
  }

  // ---------------------------------------------------------------- insertBeforeSiblingOrAppendIntoParent

  /** Inserting one host fiber's node: before the sibling's node when
      there is one (`if (hostSibling)`), appended otherwise. A fiber
      without a host node throws on reading its fields. */
  function PlaceHost(f: Fiber, parent: nat, before: Option<StateNode>, h: Host): (r: Result<Host, JsError>)
    ensures r.Success? ==> parent in h.nodes && IsParentNode(h.nodes[parent])
                           && f.stateNode.HostInstance? && f.stateNode.id in h.nodes
                           && parent in r.value.nodes && IsParentNode(r.value.nodes[parent])
    ensures r.Success? && before.Some? && before.value.HostInstance? ==>
              InsertBeforeSeq(ChildrenOf(h.nodes[parent]), f.stateNode.id, before.value.id).Success? &&
              ChildrenOf(r.value.nodes[parent]) == InsertBeforeSeq(ChildrenOf(h.nodes[parent]), f.stateNode.id, before.value.id).value
    ensures r.Success? && (before.None? || before.value.NoStateNode?) ==>
              ChildrenOf(r.value.nodes[parent]) == ChildrenOf(h.nodes[parent]) + [f.stateNode.id]
  {
    if parent !in h.nodes || !IsParentNode(h.nodes[parent]) then Failure(TypeError("Cannot read properties of undefined (reading 'children')"))
    else match f.stateNode
      case HostInstance(id) =>
        if id !in h.nodes || !IsChildNode(h.nodes[id]) then Failure(TypeError("Cannot read properties of undefined (reading 'parent')"))
        else (match before
              case Some(HostInstance(b)) => InsertBefore(h, parent, id, b)
              case Some(RootNode(_)) => Failure(Error("before does not exist"))
              case _ => AppendChildToContainer(h, id, parent))
      case _ => Failure(TypeError("Cannot read properties of null (reading 'parent')"))
  }

  /** Placing host fibers one after another before the same sibling. */
  function PlaceAll(fs: seq<Fiber>, parent: nat, before: Option<StateNode>, h: Host): Result<Host, JsError>
    decreases |fs|
  {
    if fs == [] then Success(h)
    else
      var h1 :- PlaceHost(fs[0], parent, before, h);
      PlaceAll(fs[1..], parent, before, h1)
  }

  lemma {:induction false} PlaceAllConcat(a: seq<Fiber>, b: seq<Fiber>, parent: nat, before: Option<StateNode>, h: Host)
    ensures PlaceAll(a + b, parent, before, h) == (match PlaceAll(a, parent, before, h)
                                                  case Failure(e) => Failure(e)
                                                  case Success(h1) => PlaceAll(b, parent, before, h1))
    decreases |a|
  {
    if a == [] {
      assert a + b == b;
    } else {
      assert (a + b)[0] == a[0] && (a + b)[1..] == a[1..] + b;
      match PlaceHost(a[0], parent, before, h)
      case Failure(_) =>
      case Success(h1) => PlaceAllConcat(a[1..], b, parent, before, h1);
    }
  }

  /** `insertBeforeSiblingOrAppendIntoParent` as written: the recursive
      calls for the children of a non-host fiber pass no sibling, so the
      topmost host fibers under a non-host fiber are all appended, whatever
      the sibling. */
  function InsertOrAppendAsWritten(t: FTree, parent: nat, before: Option<StateNode>, h: Host): (r: Result<Host, JsError>)
    ensures !IsHost(t.fiber) ==> r == PlaceAll(TopHosts(t), parent, None, h)
    ensures IsHost(t.fiber) ==> r == PlaceAll(TopHosts(t), parent, before, h)
    decreases t
  {
    if IsHost(t.fiber) then
      PlaceOne(t.fiber, parent, before, h);
      PlaceHost(t.fiber, parent, before, h)
    else InsertOrAppendAllAsWritten(t.kids, parent, h)
  }

  function InsertOrAppendAllAsWritten(ts: seq<FTree>, parent: nat, h: Host): (r: Result<Host, JsError>)
    ensures r == PlaceAll(TopHostsAll(ts), parent, None, h)
    decreases ts
  {
    if ts == [] then Success(h)
    else
      PlaceAllConcat(TopHosts(ts[0]), TopHostsAll(ts[1..]), parent, None, h);
      var h1 :- InsertOrAppendAsWritten(ts[0], parent, None, h);
      InsertOrAppendAllAsWritten(ts[1..], parent, h1)
  }

  /** `insertBeforeSiblingOrAppendIntoParent` with the sibling passed on to
      the recursive calls: placing a subtree places exactly its topmost
      host fibers, in tree order, each before the host sibling. */
  function InsertOrAppend(t: FTree, parent: nat, before: Option<StateNode>, h: Host): (r: Result<Host, JsError>)
    ensures r == PlaceAll(TopHosts(t), parent, before, h)
    decreases t
  {
    if IsHost(t.fiber) then
      PlaceOne(t.fiber, parent, before, h);
      PlaceHost(t.fiber, parent, before, h)
    else InsertOrAppendAll(t.kids, parent, before, h)
  }

  function InsertOrAppendAll(ts: seq<FTree>, parent: nat, before: Option<StateNode>, h: Host): (r: Result<Host, JsError>)
    ensures r == PlaceAll(TopHostsAll(ts), parent, before, h)
    decreases ts
  {
    if ts == [] then Success(h)
    else
      PlaceAllConcat(TopHosts(ts[0]), TopHostsAll(ts[1..]), parent, before, h);
      var h1 :- InsertOrAppend(ts[0], parent, before, h);
      InsertOrAppendAll(ts[1..], parent, before, h1)
  }

  /** The example of a fragment placed in front of a stable sibling: a
      container (1) holding a `div` (2), and a detached `span` (3) under
      the fragment. */
  function ExampleHost(): Host {
    Host(4, map[1 := Container([2]),
                2 := Instance(Str("div"), [], ParentId(1), Null),
                3 := Instance(Str("span"), [], Detached, Null)])
  }

  function ExampleSpan(): Fiber {
    NewFiber(HostComponent, Null, Null).(stateNode := HostInstance(3))
  }

  function ExampleFragment(): FTree {
    Node(NewFiber(Fragment, Null, Null), [Node(ExampleSpan(), [])])
  }

  lemma ExampleInsertBefore()
    ensures InsertBeforeSeq([2], 3, 2) == Success([3, 2])
  {
    assert [2][1..] == [];
    assert IndexOf([2], 2) == 0;
    assert IndexOf([2], 3) == -1;
    assert RemoveFirst([2], 3) == [2];
    assert [2][..0] + [3] + [2][0..] == [3, 2];
  }

  /** A fragment around one host leaf places just that leaf; as written,
      without the sibling. */
  lemma FragmentOfOneHost(t: FTree, parent: nat, before: Option<StateNode>, h: Host)
    requires !IsHost(t.fiber) && |t.kids| == 1 && t.kids[0].kids == [] && IsHost(t.kids[0].fiber)
    ensures InsertOrAppend(t, parent, before, h) == PlaceHost(t.kids[0].fiber, parent, before, h)
    ensures InsertOrAppendAsWritten(t, parent, before, h) == PlaceHost(t.kids[0].fiber, parent, None, h)
  {
    var f := t.kids[0].fiber;
    assert TopHosts(t) == [f] by {
      assert t.kids[1..] == [];
      assert TopHosts(t.kids[0]) == [f];
      assert TopHostsAll(t.kids[1..]) == [];
      assert TopHostsAll(t.kids) == TopHosts(t.kids[0]) + TopHostsAll(t.kids[1..]);
    }
    PlaceOne(f, parent, before, h);
    PlaceOne(f, parent, None, h);
  }

  lemma PlaceOne(f: Fiber, parent: nat, before: Option<StateNode>, h: Host)
    ensures PlaceAll([f], parent, before, h) == PlaceHost(f, parent, before, h)
  {
    assert [f][1..] == [];
  }

  /** The facts of the example the two lemmas below use. */
  lemma ExampleFacts()
    ensures var h := ExampleHost();
            && 1 in h.nodes && h.nodes[1].Container? && IsParentNode(h.nodes[1]) && ChildrenOf(h.nodes[1]) == [2]
            && 3 in h.nodes && IsChildNode(h.nodes[3]) && ParentOf(h.nodes[3]) == Detached
    ensures var t := ExampleFragment();
            && !IsHost(t.fiber) && |t.kids| == 1 && t.kids[0].kids == [] && t.kids[0].fiber == ExampleSpan()
            && IsHost(ExampleSpan()) && ExampleSpan().stateNode == HostInstance(3)
  {
  }

  /** As written, the fragment's host child lands after the sibling. */
  lemma FragmentBeforeSiblingIsAppended()
    ensures var r := InsertOrAppendAsWritten(ExampleFragment(), 1, Some(HostInstance(2)), ExampleHost());
            && r.Success? && 1 in r.value.nodes && IsParentNode(r.value.nodes[1])
            && ChildrenOf(r.value.nodes[1]) == [2, 3]
  {
    ExampleFacts();
    FragmentOfOneHost(ExampleFragment(), 1, Some(HostInstance(2)), ExampleHost());
  }

  /** Passing the sibling on puts the fragment's host child in front of
      it. */
  lemma FragmentBeforeSiblingIsInserted()
    ensures var r := InsertOrAppend(ExampleFragment(), 1, Some(HostInstance(2)), ExampleHost());
            && r.Success? && 1 in r.value.nodes && IsParentNode(r.value.nodes[1])
            && ChildrenOf(r.value.nodes[1]) == [3, 2]
  {
    ExampleFacts();
    ExampleInsertBefore();
    FragmentOfOneHost(ExampleFragment(), 1, Some(HostInstance(2)), ExampleHost());
  }
}
