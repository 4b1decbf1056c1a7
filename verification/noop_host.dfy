/** The array-backed host of the noop renderer
    (packages/react-noop-renderer/src/hostConfig.ts).

    Host nodes are objects in the source; here they live in a store keyed by
    their id (`getNextInstanceId`), so that a change to a node is seen by
    every holder of its id, as with a shared object. A container's key is
    its `rootId`. The error messages of the source are given in English. */
module NoopHost {
  import opened Wrappers
  import opened JsValues
  import opened Fibers

  /** An instance's `parent`: `-1`, the id of its parent, or, as
      `appendChildToContainer` stores it, the parent node object itself
      (here by its id). */
  datatype ParentRef = Detached | ParentId(id: nat) | ParentObject(nodeId: nat)

  datatype HostNode =
    | Container(children: seq<nat>)
    | Instance(typ: Value, children: seq<nat>, parent: ParentRef, props: Value)
    | TextInstance(text: Value, parent: ParentRef)

  /** The next id to hand out and every host node made so far. */
  datatype Host = Host(nextId: nat, nodes: map<nat, HostNode>)

  /** `nextInstanceId` starts at 1 and no node is made yet. */
  const InitialHost: Host := Host(1, map[])

  /** Every node's id was handed out before. */
  predicate ValidHost(h: Host) {
    h.nextId >= 1 && forall id :: id in h.nodes ==> 1 <= id < h.nextId
  }

  /** Nodes that hold children: containers and instances. */
  predicate IsParentNode(n: HostNode) {
    n.Container? || n.Instance?
  }

  /** Nodes that can be a child: instances and text instances. */
  predicate IsChildNode(n: HostNode) {
    n.Instance? || n.TextInstance?
  }

  /** Adds a node under a fresh id (`getNextInstanceId()`). */
  function Allocate(h: Host, n: HostNode): (r: (Host, nat))
    ensures ValidHost(h) ==> ValidHost(r.0) && r.1 !in h.nodes
    ensures r.1 == h.nextId && r.0.nextId == h.nextId + 1
    ensures r.1 in r.0.nodes && r.0.nodes[r.1] == n
    ensures forall id :: id in h.nodes && id != r.1 ==> id in r.0.nodes && r.0.nodes[id] == h.nodes[id]
  {
    (Host(h.nextId + 1, h.nodes[h.nextId := n]), h.nextId)
  }

  /** `createContainer()`. */
  function CreateContainer(h: Host): (r: (Host, nat))
    ensures ValidHost(h) ==> ValidHost(r.0) && r.1 !in h.nodes
    ensures r.1 == h.nextId && r.0.nextId == h.nextId + 1
    ensures r.1 in r.0.nodes && r.0.nodes[r.1] == Container([])
  {
    Allocate(h, Container([]))
  }

  /** `createInstance(type, props)`: a detached instance with no children. */
  function CreateInstance(h: Host, typ: Value, props: Value): (r: (Host, nat))
    ensures ValidHost(h) ==> ValidHost(r.0) && r.1 !in h.nodes
    ensures r.1 == h.nextId && r.0.nextId == h.nextId + 1
    ensures r.1 in r.0.nodes && r.0.nodes[r.1] == Instance(typ, [], Detached, props)
  {
    Allocate(h, Instance(typ, [], Detached, props))
  }

  /** `createTextInstance(content)`: a detached text instance. */
  function CreateTextInstance(h: Host, content: Value): (r: (Host, nat))
    ensures ValidHost(h) ==> ValidHost(r.0) && r.1 !in h.nodes
    ensures r.1 == h.nextId && r.0.nextId == h.nextId + 1
    ensures r.1 in r.0.nodes && r.0.nodes[r.1] == TextInstance(content, Detached)
  {
    Allocate(h, TextInstance(content, Detached))
  }

  /** Ids handed out one after another strictly increase, and making a
      node changes no existing one. */
  lemma IdsIncrease(h: Host, typ: Value, props: Value, content: Value)
    requires ValidHost(h)
    ensures var (h1, a) := CreateInstance(h, typ, props);
            var (h2, b) := CreateTextInstance(h1, content);
            a < b && a !in h.nodes && b !in h1.nodes && h2.nodes[a] == h1.nodes[a]
  {
  }

  /** The children of a parent node. */
  function ChildrenOf(n: HostNode): seq<nat>
    requires IsParentNode(n)
  {
    if n.Container? then n.children else n.children
  }

  function WithChildren(n: HostNode, cs: seq<nat>): (r: HostNode)
    requires IsParentNode(n)
    ensures IsParentNode(r) && ChildrenOf(r) == cs && r.Container? == n.Container?
  {
    if n.Container? then Container(cs) else n.(children := cs)
  }

  function ParentOf(n: HostNode): ParentRef
    requires IsChildNode(n)
  {
    n.parent
  }

  function WithParent(n: HostNode, p: ParentRef): (r: HostNode)
    requires IsChildNode(n)
    ensures IsChildNode(r) && ParentOf(r) == p
  {
    n.(parent := p)
  }

  /** The guard of `appendInitialChild` and `appendChildToContainer`: the
      child is detached or already belongs to `parentId`. A `parent` that
      holds the container object never passes it, since an object is never
      equal to a number. */
  predicate MayAttach(p: ParentRef, parentId: nat) {
    p == Detached || p == ParentId(parentId)
  }

  /** `appendInitialChild(parent, child)`. */
  function AppendInitialChild(h: Host, parentId: nat, childId: nat): (r: Result<Host, JsError>)
    requires parentId in h.nodes && IsParentNode(h.nodes[parentId])
    requires childId in h.nodes && IsChildNode(h.nodes[childId])
    ensures r.Failure? <==> !MayAttach(ParentOf(h.nodes[childId]), parentId)
    ensures r.Success? ==>
              && parentId in r.value.nodes && IsParentNode(r.value.nodes[parentId])
              && ChildrenOf(r.value.nodes[parentId]) == ChildrenOf(h.nodes[parentId]) + [childId]
              && childId in r.value.nodes && IsChildNode(r.value.nodes[childId])
              && ParentOf(r.value.nodes[childId]) == ParentId(parentId)
    ensures r.Success? ==> r.value.nextId == h.nextId && r.value.nodes.Keys == h.nodes.Keys
  {
    var child := h.nodes[childId];
    if !MayAttach(ParentOf(child), parentId) then Failure(Error("cannot mount a child twice"))
    else
      var h1 := h.(nodes := h.nodes[childId := WithParent(child, ParentId(parentId))]);
      var parent := h1.nodes[parentId];
      Success(h1.(nodes := h1.nodes[parentId := WithChildren(parent, ChildrenOf(parent) + [childId])]))
  }

  /** The guard of `appendChildToContainer`: it compares against
      `container.rootId`, which an instance does not have, so under an
      instance only a detached child passes. */
  predicate MayAttachToContainer(p: ParentRef, container: HostNode, rootId: nat) {
    p == Detached || (container.Container? && p == ParentId(rootId))
  }

  /** `appendChildToContainer(child, container)`: the child's `parent`
      becomes the container object itself. The commit phase also calls it
      with an instance as the container. */
  function AppendChildToContainer(h: Host, childId: nat, rootId: nat): (r: Result<Host, JsError>)
    requires rootId in h.nodes && IsParentNode(h.nodes[rootId])
    requires childId in h.nodes && IsChildNode(h.nodes[childId])
    ensures r.Failure? <==> !MayAttachToContainer(ParentOf(h.nodes[childId]), h.nodes[rootId], rootId)
    ensures r.Success? ==>
              && rootId in r.value.nodes && IsParentNode(r.value.nodes[rootId])
              && ChildrenOf(r.value.nodes[rootId]) == ChildrenOf(h.nodes[rootId]) + [childId]
              && childId in r.value.nodes && IsChildNode(r.value.nodes[childId])
              && ParentOf(r.value.nodes[childId]) == ParentObject(rootId)
    ensures r.Success? ==> r.value.nextId == h.nextId && r.value.nodes.Keys == h.nodes.Keys
  {
    var child := h.nodes[childId];
    if !MayAttachToContainer(ParentOf(child), h.nodes[rootId], rootId) then Failure(Error("cannot mount a child twice"))
    else
      var h1 := h.(nodes := h.nodes[childId := WithParent(child, ParentObject(rootId))]);
      var parent := h1.nodes[rootId];
      Success(h1.(nodes := h1.nodes[rootId := WithChildren(parent, ChildrenOf(parent) + [childId])]))
  }

  /** A child appended to a container can never be appended again, not
      even to the same container: its `parent` is an object from then on. */
  lemma ContainerAppendIsOneShot(h: Host, childId: nat, rootId: nat, parentId: nat)
    requires rootId in h.nodes && IsParentNode(h.nodes[rootId])
    requires childId in h.nodes && IsChildNode(h.nodes[childId]) && childId != rootId
    requires AppendChildToContainer(h, childId, rootId).Success?
    ensures var h1 := AppendChildToContainer(h, childId, rootId).value;
            AppendChildToContainer(h1, childId, rootId).Failure?
            && (parentId in h1.nodes && IsParentNode(h1.nodes[parentId]) ==>
                  AppendInitialChild(h1, parentId, childId).Failure?)
  {
  }

  // ---------------------------------------------------------------- children sequences

  /** `xs.indexOf(x)`: the first position of `x`, or -1. */
  function IndexOf(xs: seq<nat>, x: nat): (i: int)
    ensures -1 <= i < |xs|
    ensures i >= 0 ==> xs[i] == x && forall k :: 0 <= k < i ==> xs[k] != x
    ensures i < 0 <==> x !in xs
    decreases |xs|
  {
    if xs == [] then -1
    else if xs[0] == x then 0
    else
      var j := IndexOf(xs[1..], x);
      assert forall k :: 0 <= k < |xs| - 1 ==> xs[1..][k] == xs[k + 1];
      if j < 0 then -1 else j + 1
  }

  /** `xs` without its first `x` (`splice(indexOf(x), 1)`). */
  function RemoveFirst(xs: seq<nat>, x: nat): (r: seq<nat>)
    ensures x in xs ==> |r| == |xs| - 1 && multiset(r) + multiset{x} == multiset(xs)
    ensures x !in xs ==> r == xs
  {
    var i := IndexOf(xs, x);
    if i < 0 then xs
    else
      assert xs == xs[..i] + [x] + xs[i + 1..];
      xs[..i] + xs[i + 1..]
  }

  /** The children after `insertBefore(parent, child, before)`: `child` is
      taken out if present, then put right before `before`. */
  function InsertBeforeSeq(cs: seq<nat>, child: nat, before: nat): (r: Result<seq<nat>, JsError>)
    ensures r.Failure? <==> before !in cs
    ensures r.Success? ==> multiset(r.value) == multiset(RemoveFirst(cs, child)) + multiset{child}
    ensures r.Success? && child in cs ==> |r.value| == |cs|
    ensures r.Success? && child !in cs ==> |r.value| == |cs| + 1
  {
    var bi := IndexOf(cs, before);
    if bi < 0 then Failure(Error("before does not exist"))
    else
      var ci := IndexOf(cs, child);
      var rest := RemoveFirst(cs, child);
      var at := if ci >= 0 && bi > ci then bi - 1 else bi;
      assert at <= |rest|;
      assert rest == rest[..at] + rest[at..];
      Success(rest[..at] + [child] + rest[at..])
  }

  /** Splicing `x` between two halves without `x`: it is found where it
      was put, and taking it out gives back the halves. */
  lemma SpliceIndex(a: seq<nat>, x: nat, b: seq<nat>)
    requires x !in a
    ensures IndexOf(a + [x] + b, x) == |a|
    ensures (a + [x] + b)[..|a|] + (a + [x] + b)[|a| + 1..] == a + b
  {
    var r := a + [x] + b;
    assert r[..|a|] == a;
    assert r[|a| + 1..] == b;
    assert forall k :: 0 <= k < |a| ==> r[k] == a[k];
    assert r[|a|] == x;
  }

  /** After `child` is taken out, `before` is at the adjusted index. */
  lemma BeforeAfterRemoval(cs: seq<nat>, child: nat, before: nat)
    requires before in cs && child != before
    ensures var bi := IndexOf(cs, before);
            var ci := IndexOf(cs, child);
            var at := if ci >= 0 && bi > ci then bi - 1 else bi;
            at < |RemoveFirst(cs, child)| && RemoveFirst(cs, child)[at] == before
  {
    var bi := IndexOf(cs, before);
    var ci := IndexOf(cs, child);
    assert cs[bi] == before;
    if ci >= 0 {
      assert cs[ci] == child;
      assert bi != ci;
      var a, b := cs[..ci], cs[ci + 1..];
      assert RemoveFirst(cs, child) == a + b;
      if bi > ci {
        assert b[bi - 1 - ci] == cs[bi];
        assert (a + b)[bi - 1] == b[bi - 1 - |a|];
      } else {
        assert a[bi] == cs[bi];
        assert (a + b)[bi] == a[bi];
      }
    }
  }

  /** Taking out the only `x` leaves none. */
  lemma RemoveFirstDistinct(xs: seq<nat>, x: nat)
    requires multiset(xs)[x] <= 1
    ensures x !in RemoveFirst(xs, x)
  {
    if x in xs {
      assert multiset(RemoveFirst(xs, x))[x] == 0;
    }
  }

  /** Where `insertBefore` puts things: with `child` taken out, the rest
      keep their order, and `child` sits right before `before`. Host
      children are distinct, so `child` occurs at most once. */
  lemma InsertBeforePlaces(cs: seq<nat>, child: nat, before: nat)
    requires before in cs && child != before && multiset(cs)[child] <= 1
    ensures var r := InsertBeforeSeq(cs, child, before).value;
            var k := IndexOf(r, child);
            0 <= k < |r| - 1 && r[k + 1] == before
            && r[..k] + r[k + 1..] == RemoveFirst(cs, child)
  {
    var bi := IndexOf(cs, before);
    var ci := IndexOf(cs, child);
    var rest := RemoveFirst(cs, child);
    var at := if ci >= 0 && bi > ci then bi - 1 else bi;
    BeforeAfterRemoval(cs, child, before);
    RemoveFirstDistinct(cs, child);
    var a, b := rest[..at], rest[at..];
    assert rest == a + b;
    assert InsertBeforeSeq(cs, child, before) == Success(a + [child] + b);
    assert child !in a;
    SpliceIndex(a, child, b);
    assert (a + [child] + b)[|a| + 1] == b[0] == before;
  }

  /** `removeChild(child, container)`'s effect on the children. */
  function RemoveChildSeq(cs: seq<nat>, child: nat): (r: Result<seq<nat>, JsError>)
    ensures r.Failure? <==> child !in cs
    ensures r.Success? ==> r.value == RemoveFirst(cs, child)
  {
    if IndexOf(cs, child) < 0 then Failure(Error("child does not exist")) else Success(RemoveFirst(cs, child))
  }

  /** Inserting a new child and removing it again restores the children. */
  lemma InsertThenRemove(cs: seq<nat>, child: nat, before: nat)
    requires before in cs && child !in cs
    ensures var r := InsertBeforeSeq(cs, child, before).value;
            RemoveChildSeq(r, child) == Success(cs)
  {
    InsertBeforePlaces(cs, child, before);
    var r := InsertBeforeSeq(cs, child, before).value;
    var k := IndexOf(r, child);
    assert child in r;
    assert RemoveFirst(r, child) == r[..k] + r[k + 1..];
  }

  /** `insertBefore(parent, child, before)`. */
  function InsertBefore(h: Host, parentId: nat, childId: nat, beforeId: nat): (r: Result<Host, JsError>)
    requires parentId in h.nodes && IsParentNode(h.nodes[parentId])
    ensures r.Failure? <==> beforeId !in ChildrenOf(h.nodes[parentId])
    ensures r.Success? ==>
              && parentId in r.value.nodes && IsParentNode(r.value.nodes[parentId])
              && ChildrenOf(r.value.nodes[parentId]) == InsertBeforeSeq(ChildrenOf(h.nodes[parentId]), childId, beforeId).value
              && forall id :: id in h.nodes && id != parentId ==> id in r.value.nodes && r.value.nodes[id] == h.nodes[id]
  {
    var parent := h.nodes[parentId];
    var cs :- InsertBeforeSeq(ChildrenOf(parent), childId, beforeId);
    Success(h.(nodes := h.nodes[parentId := WithChildren(parent, cs)]))
  }

  /** `removeChild(child, container)`: the child's `parent` is left as it
      was. */
  function RemoveChild(h: Host, childId: nat, parentId: nat): (r: Result<Host, JsError>)
    requires parentId in h.nodes && IsParentNode(h.nodes[parentId])
    ensures r.Failure? <==> childId !in ChildrenOf(h.nodes[parentId])
    ensures r.Success? ==>
              && parentId in r.value.nodes && IsParentNode(r.value.nodes[parentId])
              && ChildrenOf(r.value.nodes[parentId]) == RemoveFirst(ChildrenOf(h.nodes[parentId]), childId)
              && forall id :: id in h.nodes && id != parentId ==> id in r.value.nodes && r.value.nodes[id] == h.nodes[id]
  {
    var parent := h.nodes[parentId];
    var cs :- RemoveChildSeq(ChildrenOf(parent), childId);
    Success(h.(nodes := h.nodes[parentId := WithChildren(parent, cs)]))
  }

  /** `commitTextUpdate(textInstance, content)`. */
  function CommitTextUpdate(h: Host, textId: nat, content: Value): (r: Host)
    requires textId in h.nodes && h.nodes[textId].TextInstance?
    ensures textId in r.nodes && r.nodes[textId] == TextInstance(content, h.nodes[textId].parent)
    ensures forall id :: id in h.nodes && id != textId ==> id in r.nodes && r.nodes[id] == h.nodes[id]
  {
    h.(nodes := h.nodes[textId := h.nodes[textId].(text := content)])
  }

  /** `commitUpdate(fiber)`: only a text fiber is updated, its text
      becoming `memoizedProps.content`; other fibers leave the host alone.
      A text fiber without props or without a text instance throws. */
  function CommitUpdate(h: Host, f: Fiber): (r: Result<Host, JsError>)
    ensures f.tag != HostText ==> r == Success(h)
    ensures f.tag == HostText ==>
              (r.Failure? <==> f.memoizedProps == Null || f.memoizedProps == Undefined
                               || !f.stateNode.HostInstance? || f.stateNode.id !in h.nodes)
    ensures f.tag == HostText && r.Success? ==>
              && f.stateNode.HostInstance? && f.stateNode.id in h.nodes
              && r.value.nextId == h.nextId && r.value.nodes.Keys == h.nodes.Keys
              && forall id :: id in h.nodes && id != f.stateNode.id ==> r.value.nodes[id] == h.nodes[id]
    ensures f.tag == HostText && r.Success? && h.nodes[f.stateNode.id].TextInstance? ==>
              r.value.nodes[f.stateNode.id] == TextInstance(Prop(f.memoizedProps, "content"), h.nodes[f.stateNode.id].parent)
  {
    if f.tag != HostText then Success(h)
    else
      var text :- GetProp(f.memoizedProps, "content");
      match f.stateNode
      case HostInstance(id) =>
        if id !in h.nodes then Failure(TypeError("Cannot set properties of undefined (setting 'text')"))
        else if h.nodes[id].TextInstance? then Success(CommitTextUpdate(h, id, text))
        else Success(h)
      case _ => Failure(TypeError("Cannot set properties of null (setting 'text')"))
  }
}
