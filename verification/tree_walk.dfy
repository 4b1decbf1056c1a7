/** The pointer walks of the reconciler.

    `commitEffects`, `workLoop`/`completeUnitOfWork` and `appendAllChildren`
    all walk a fiber tree by hand through `child`, `sibling` and `return`.
    Here the current position of such a walk is a zipper: the fiber in
    focus with its subtree, and the path back to the root, one frame per
    ancestor holding that ancestor and the siblings left and right of the
    way down. `node.child`, `node.sibling` and `node.return` become `Down`,
    `Right` and `Up`.

    The walks share one machine, `WalkDown`/`WalkProcess`/`Next`, which
    follows the source's loops step by step: work on a node on the way down
    (`pre`), go down when `descend` allows it, work on the node on the way
    up (`post`), then move to the sibling or climb. `Visit` is the same
    traversal written as structural recursion, and `WalkIsVisit` proves the
    two agree on every tree and every visitor. */
module TreeWalk {
  import opened Wrappers
  import opened JsValues
  import opened Fibers

  /** One ancestor on the way from the root: its fiber, and its children
      to the left and to the right of the way down. */
  datatype Frame = Frame(parent: Fiber, left: seq<FTree>, right: seq<FTree>)

  /** A position in a tree; the innermost frame is the last one. */
  datatype Zipper = Zipper(focus: FTree, path: seq<Frame>)

  function Size(t: FTree): (n: nat)
    ensures n >= 1
    decreases t
  {
    1 + SizeAll(t.kids)
  }

  function SizeAll(ts: seq<FTree>): nat
    decreases ts
  {
    if ts == [] then 0 else Size(ts[0]) + SizeAll(ts[1..])
  }

  lemma {:induction false} SizeAllAppend(a: seq<FTree>, b: seq<FTree>)
    ensures SizeAll(a + b) == SizeAll(a) + SizeAll(b)
    decreases |a|
  {
    if a == [] {
      assert a + b == b;
    } else {
      assert (a + b)[0] == a[0];
      assert (a + b)[1..] == a[1..] + b;
      SizeAllAppend(a[1..], b);
    }
  }

  function Last(path: seq<Frame>): Frame
    requires path != []
  {
    path[|path| - 1]
  }

  function Outer(path: seq<Frame>): seq<Frame>
    requires path != []
  {
    path[..|path| - 1]
  }

  /** The part of the walk still ahead once the focus is done: each
      ancestor's remaining right siblings and the ancestor itself. */
  function Rest(path: seq<Frame>): nat
    decreases |path|
  {
    if path == [] then 0 else Rest(Outer(path)) + 1 + 2 * SizeAll(Last(path).right)
  }

  /** `node.sibling !== null`. */
  predicate HasSibling(z: Zipper) {
    z.path != [] && Last(z.path).right != []
  }

  /** `node = node.child`. */
  function Down(z: Zipper): (r: Zipper)
    requires z.focus.kids != []
    ensures r.path != [] && Outer(r.path) == z.path && Last(r.path).parent == z.focus.fiber
    ensures Last(r.path).left == [] && [r.focus] + Last(r.path).right == z.focus.kids
    ensures 2 * Size(r.focus) + Rest(r.path) + 1 == 2 * Size(z.focus) + Rest(z.path)
  {
    var kids := z.focus.kids;
    var r := Zipper(kids[0], z.path + [Frame(z.focus.fiber, [], kids[1..])]);
    assert Outer(r.path) == z.path;
    assert [kids[0]] + kids[1..] == kids;
    r
  }

  /** `node = node.sibling`. */
  function Right(z: Zipper): (r: Zipper)
    requires HasSibling(z)
    ensures r.path != [] && Outer(r.path) == Outer(z.path) && Last(r.path).parent == Last(z.path).parent
    ensures Last(r.path).left == Last(z.path).left + [z.focus]
    ensures [r.focus] + Last(r.path).right == Last(z.path).right
    ensures 2 * Size(r.focus) + Rest(r.path) == Rest(z.path)
  {
    var fr := Last(z.path);
    var r := Zipper(fr.right[0], Outer(z.path) + [Frame(fr.parent, fr.left + [z.focus], fr.right[1..])]);
    assert Outer(r.path) == Outer(z.path);
    assert [fr.right[0]] + fr.right[1..] == fr.right;
    r
  }

  /** `node = node.return`: the parent, rebuilt around the focus. */
  function Up(z: Zipper): (r: Zipper)
    requires z.path != []
    ensures r.path == Outer(z.path) && r.focus.fiber == Last(z.path).parent
    ensures r.focus.kids == Last(z.path).left + [z.focus] + Last(z.path).right
    ensures !HasSibling(z) ==> 1 + Rest(r.path) == Rest(z.path)
  {
    var fr := Last(z.path);
    Zipper(Node(fr.parent, fr.left + [z.focus] + fr.right), Outer(z.path))
  }

  /** The whole tree a zipper stands for. */
  function Plug(z: Zipper): FTree
    decreases |z.path|
  {
    if z.path == [] then z.focus else Plug(Up(z))
  }

  /** Moving does not change the tree: going down or right and plugging
      gives the tree back. */
  lemma DownKeepsTree(z: Zipper)
    requires z.focus.kids != []
    ensures Plug(Down(z)) == Plug(z) && Up(Down(z)) == z
  {
    var d := Down(z);
    assert Up(d).focus == z.focus;
    assert Plug(d) == Plug(Up(d));
  }

  lemma RightKeepsTree(z: Zipper)
    requires HasSibling(z)
    ensures Plug(Right(z)) == Plug(z)
  {
    var r := Right(z);
    var fr := Last(z.path);
    assert Up(r).focus.kids == fr.left + [z.focus] + fr.right by {
      assert fr.right == [fr.right[0]] + fr.right[1..];
    }
  }

  /** Moving right stays under the same parent, rebuilt the same way. */
  lemma UpRight(z: Zipper)
    requires HasSibling(z)
    ensures Up(Right(z)) == Up(z)
  {
    var fr := Last(z.path);
    assert fr.right == [fr.right[0]] + fr.right[1..];
    assert Up(Right(z)).focus.kids == fr.left + [z.focus] + fr.right;
  }

  /** Work on one node, before (`pre`) or after (`post`) its children:
      returns the node's new fiber and the new walk state, or throws. The
      node's children are left as they are. */
  type Step<!E> = (Zipper, E) -> Result<(Fiber, E), JsError>

  /** A walk: what to do on the way down, whether to go into a node's
      children, and what to do on the way up. */
  datatype Visitor<!E> = Visitor(pre: Step<E>, descend: Fiber -> bool, post: Step<E>)

  function WithFiber(z: Zipper, f: Fiber): Zipper {
    z.(focus := Node(f, z.focus.kids))
  }

  /** The machine, on the way down: work on the node, then step into its
      first child if allowed and present, and otherwise finish the node. */
  function WalkDown<E>(v: Visitor<E>, z: Zipper, e: E): Result<(FTree, E), JsError>
    decreases 2 * Size(z.focus) + Rest(z.path), 2
  {
    var (f1, e1) :- v.pre(z, e);
    var z1 := WithFiber(z, f1);
    if v.descend(f1) && z.focus.kids != [] then WalkDown(v, Down(z1), e1)
    else WalkProcess(v, z1, e1)
  }

  /** Finishing a node: work on it on the way up, then move on. */
  function WalkProcess<E>(v: Visitor<E>, z: Zipper, e: E): Result<(FTree, E), JsError>
    decreases 1 + Rest(z.path), 1
  {
    var (f2, e2) :- v.post(z, e);
    Next(v, WithFiber(z, f2), e2)
  }

  /** After a finished node: its sibling is next, otherwise its parent is
      finished, and after the root the walk is over. */
  function Next<E>(v: Visitor<E>, z: Zipper, e: E): Result<(FTree, E), JsError>
    decreases 1 + Rest(z.path), 0
  {
    if HasSibling(z) then WalkDown(v, Right(z), e)
    else if z.path == [] then Success((z.focus, e))
    else WalkProcess(v, Up(z), e)
  }

  /** The same traversal as structural recursion: the focus's subtree is
      visited in full, and the zipper comes back at the same place. */
  function Visit<E>(v: Visitor<E>, z: Zipper, e: E): (r: Result<(Zipper, E), JsError>)
    ensures r.Success? ==> r.value.0.path == z.path
    decreases Size(z.focus), 1
  {
    var (f1, e1) :- v.pre(z, e);
    var z1 := WithFiber(z, f1);
    var (z2, e2) :-
      if v.descend(f1) && z.focus.kids != [] then
        var (zk, ek) :- VisitKids(v, Down(z1), e1);
        Success((Up(zk), ek))
      else Success((z1, e1));
    var (f3, e3) :- v.post(z2, e2);
    Success((WithFiber(z2, f3), e3))
  }

  /** Visiting the focus and every sibling to its right; the zipper comes
      back at the last child, under the same parent. */
  function VisitKids<E>(v: Visitor<E>, z: Zipper, e: E): (r: Result<(Zipper, E), JsError>)
    requires z.path != []
    ensures r.Success? ==> r.value.0.path != [] && Outer(r.value.0.path) == Outer(z.path)
                           && Last(r.value.0.path).parent == Last(z.path).parent
                           && !HasSibling(r.value.0)
    decreases Size(z.focus) + SizeAll(Last(z.path).right), 2
  {
    var (z1, e1) :- Visit(v, z, e);
    if HasSibling(z1) then VisitKids(v, Right(z1), e1) else Success((z1, e1))
  }

  /** Running on from a visited subtree. */
  function ThenNext<E>(v: Visitor<E>, r: Result<(Zipper, E), JsError>): Result<(FTree, E), JsError> {
    match r
    case Failure(err) => Failure(err)
    case Success((z, e)) => Next(v, z, e)
  }

  /** Finishing the parent after its children are visited. */
  function ThenParent<E>(v: Visitor<E>, r: Result<(Zipper, E), JsError>): Result<(FTree, E), JsError> {
    match r
    case Failure(err) => Failure(err)
    case Success((z, e)) => if z.path == [] then Failure(Error("no parent")) else WalkProcess(v, Up(z), e)
  }

  /** The machine from a node does the recursive visit of the node's
      subtree, then carries on. */
  lemma {:induction false} WalkDownVisits<E>(v: Visitor<E>, z: Zipper, e: E)
    ensures WalkDown(v, z, e) == ThenNext(v, Visit(v, z, e))
    decreases Size(z.focus), 1
  {
    match v.pre(z, e)
    case Failure(_) =>
    case Success((f1, e1)) =>
      var z1 := WithFiber(z, f1);
      if v.descend(f1) && z.focus.kids != [] {
        WalkDownVisitsKids(v, Down(z1), e1);
        WalkDownEnters(v, z, e);
      } else {
        WalkDownSkips(v, z, e);
      }
  }

  /** The machine and the visit agree on a node that is entered, once they
      agree on its children. */
  lemma WalkDownEnters<E>(v: Visitor<E>, z: Zipper, e: E)
    requires v.pre(z, e).Success? && v.descend(v.pre(z, e).value.0) && z.focus.kids != []
    requires var (f1, e1) := v.pre(z, e).value;
             WalkDown(v, Down(WithFiber(z, f1)), e1) == ThenParent(v, VisitKids(v, Down(WithFiber(z, f1)), e1))
    ensures WalkDown(v, z, e) == ThenNext(v, Visit(v, z, e))
  {
  }

  /** The same on a node that is not entered. */
  lemma WalkDownSkips<E>(v: Visitor<E>, z: Zipper, e: E)
    requires v.pre(z, e).Success? && !(v.descend(v.pre(z, e).value.0) && z.focus.kids != [])
    ensures WalkDown(v, z, e) == ThenNext(v, Visit(v, z, e))
  {
  }

  /** The machine from a child does the recursive visit of it and its
      right siblings, then finishes their parent. */
  lemma {:induction false} WalkDownVisitsKids<E>(v: Visitor<E>, z: Zipper, e: E)
    requires z.path != []
    ensures WalkDown(v, z, e) == ThenParent(v, VisitKids(v, z, e))
    decreases Size(z.focus) + SizeAll(Last(z.path).right), 2
  {
    WalkDownVisits(v, z, e);
    match Visit(v, z, e)
    case Failure(_) =>
    case Success((z1, e1)) =>
      if HasSibling(z1) {
        WalkDownVisitsKids(v, Right(z1), e1);
      }
  }

  /** A visit whose `pre` keeps the fiber, unfolded: when the node is
      entered, its children are visited from the first one and then `post`
      runs at the rebuilt node. */
  lemma VisitEnters<E>(v: Visitor<E>, z: Zipper, e: E)
    requires v.pre(z, e).Success? && v.pre(z, e).value.0 == z.focus.fiber
    requires v.descend(z.focus.fiber) && z.focus.kids != []
    ensures var rk := VisitKids(v, Down(z), v.pre(z, e).value.1);
            Visit(v, z, e).Success? ==>
              && rk.Success? && v.post(Up(rk.value.0), rk.value.1).Success?
              && Visit(v, z, e) == Success((WithFiber(Up(rk.value.0), v.post(Up(rk.value.0), rk.value.1).value.0),
                                            v.post(Up(rk.value.0), rk.value.1).value.1))
  {
    assert WithFiber(z, z.focus.fiber) == z;
  }

  /** A visit that is entered and succeeds at every step, given its steps. */
  lemma VisitEntersWith<E>(v: Visitor<E>, z: Zipper, e: E, e1: E, zk: Zipper, ek: E, f3: Fiber, e3: E)
    requires v.pre(z, e) == Success((z.focus.fiber, e1)) && v.descend(z.focus.fiber) && z.focus.kids != []
    requires VisitKids(v, Down(z), e1) == Success((zk, ek))
    requires v.post(Up(zk), ek) == Success((f3, e3))
    ensures Visit(v, z, e) == Success((WithFiber(Up(zk), f3), e3))
  {
    assert WithFiber(z, z.focus.fiber) == z;
  }

  /** The same when the node is not entered: `post` runs right away. */
  lemma VisitSkips<E>(v: Visitor<E>, z: Zipper, e: E)
    requires v.pre(z, e).Success? && v.pre(z, e).value.0 == z.focus.fiber
    requires !(v.descend(z.focus.fiber) && z.focus.kids != [])
    ensures var rp := v.post(z, v.pre(z, e).value.1);
            Visit(v, z, e).Success? ==> rp.Success? && Visit(v, z, e) == Success((WithFiber(z, rp.value.0), rp.value.1))
  {
    assert WithFiber(z, z.focus.fiber) == z;
  }

  /** Visiting a run of siblings, unfolded: the first one is visited,
      then the rest from the next sibling. */
  lemma VisitKidsStep<E>(v: Visitor<E>, z: Zipper, e: E)
    requires z.path != []
    ensures var r1 := Visit(v, z, e);
            VisitKids(v, z, e).Success? ==>
              && r1.Success?
              && VisitKids(v, z, e) == (if HasSibling(r1.value.0) then VisitKids(v, Right(r1.value.0), r1.value.1) else r1)
  {
  }

  /** Visiting a node logs what its `pre` logs, then what visiting its
      children logs when it is entered, then what its `post` logs. */
  lemma VisitChain<E, X>(v: Visitor<E>, log: E -> seq<X>, z: Zipper, e: E, before: seq<X>, below: seq<X>, after: seq<X>)
    requires v.pre(z, e).Success? ==> log(v.pre(z, e).value.1) == log(e) + before
    requires v.pre(z, e).Success? ==>
               var z1 := WithFiber(z, v.pre(z, e).value.0);
               if v.descend(z1.focus.fiber) && z.focus.kids != [] then
                 var rk := VisitKids(v, Down(z1), v.pre(z, e).value.1);
                 rk.Success? ==> log(rk.value.1) == log(v.pre(z, e).value.1) + below
               else below == []
    requires forall y: Zipper, e2: E | y.path == z.path && v.post(y, e2).Success? :: log(v.post(y, e2).value.1) == log(e2) + after
    ensures Visit(v, z, e).Success? ==> log(Visit(v, z, e).value.1) == log(e) + (before + below + after)
  {
    var r0 := v.pre(z, e);
    if r0.Success? {
      var (f1, e1) := r0.value;
      if v.descend(f1) && z.focus.kids != [] {
        VisitChainInner(v, log, z, e, before, below, after);
      } else {
        VisitChainLeaf(v, log, z, e, before, after);
        assert before + below + after == before + after;
      }
    }
  }

  lemma VisitChainInner<E, X>(v: Visitor<E>, log: E -> seq<X>, z: Zipper, e: E, before: seq<X>, below: seq<X>, after: seq<X>)
    requires v.pre(z, e).Success? && v.descend(v.pre(z, e).value.0) && z.focus.kids != []
    requires log(v.pre(z, e).value.1) == log(e) + before
    requires var rk := VisitKids(v, Down(WithFiber(z, v.pre(z, e).value.0)), v.pre(z, e).value.1);
             rk.Success? ==> log(rk.value.1) == log(v.pre(z, e).value.1) + below
    requires forall y: Zipper, e2: E | y.path == z.path && v.post(y, e2).Success? :: log(v.post(y, e2).value.1) == log(e2) + after
    ensures Visit(v, z, e).Success? ==> log(Visit(v, z, e).value.1) == log(e) + (before + below + after)
  {
    var r0 := v.pre(z, e).value;
    var z1 := WithFiber(z, r0.0);
    assert z1.path == z.path;
    var rk := VisitKids(v, Down(z1), r0.1);
    if rk.Success? && v.post(Up(rk.value.0), rk.value.1).Success? {
      var y := Up(rk.value.0);
      assert y.path == z.path;
      var rp := v.post(y, rk.value.1);
      PostLogs(v, log, z.path, y, rk.value.1, after);
      assert Visit(v, z, e) == Success((WithFiber(y, rp.value.0), rp.value.1));
      AppendAssoc(log(e), before, below, after);
    }
  }

  lemma VisitChainLeaf<E, X>(v: Visitor<E>, log: E -> seq<X>, z: Zipper, e: E, before: seq<X>, after: seq<X>)
    requires v.pre(z, e).Success? && !(v.descend(v.pre(z, e).value.0) && z.focus.kids != [])
    requires log(v.pre(z, e).value.1) == log(e) + before
    requires forall y: Zipper, e2: E | y.path == z.path && v.post(y, e2).Success? :: log(v.post(y, e2).value.1) == log(e2) + after
    ensures Visit(v, z, e).Success? ==> log(Visit(v, z, e).value.1) == log(e) + (before + after)
  {
    var r0 := v.pre(z, e).value;
    var z1 := WithFiber(z, r0.0);
    assert z1.path == z.path;
    var rp := v.post(z1, r0.1);
    if rp.Success? {
      PostLogs(v, log, z.path, z1, r0.1, after);
      assert Visit(v, z, e) == Success((WithFiber(z1, rp.value.0), rp.value.1));
    }
  }

  lemma PostLogs<E, X>(v: Visitor<E>, log: E -> seq<X>, path: seq<Frame>, y: Zipper, e: E, after: seq<X>)
    requires forall y: Zipper, e2: E | y.path == path && v.post(y, e2).Success? :: log(v.post(y, e2).value.1) == log(e2) + after
    requires y.path == path && v.post(y, e).Success?
    ensures log(v.post(y, e).value.1) == log(e) + after
  {
  }

  lemma AppendAssoc<X>(a: seq<X>, b: seq<X>, c: seq<X>, d: seq<X>)
    ensures a + b + c + d == a + (b + c + d)
  {
  }

  /** Visiting a run of siblings logs what visiting the first one logs,
      then what visiting the rest logs. */
  lemma VisitKidsChain<E, X>(v: Visitor<E>, log: E -> seq<X>, z: Zipper, e: E, p: seq<X>, q: seq<X>)
    requires z.path != []
    requires Visit(v, z, e).Success? ==> log(Visit(v, z, e).value.1) == log(e) + p
    requires Visit(v, z, e).Success? && !HasSibling(Visit(v, z, e).value.0) ==> q == []
    requires Visit(v, z, e).Success? && HasSibling(Visit(v, z, e).value.0) ==>
               var r := VisitKids(v, Right(Visit(v, z, e).value.0), Visit(v, z, e).value.1);
               r.Success? ==> log(r.value.1) == log(Visit(v, z, e).value.1) + q
    ensures VisitKids(v, z, e).Success? ==> log(VisitKids(v, z, e).value.1) == log(e) + (p + q)
  {
    var r1 := Visit(v, z, e);
    if r1.Success? {
      var (z1, e1) := r1.value;
      if HasSibling(z1) {
        assert VisitKids(v, z, e) == VisitKids(v, Right(z1), e1);
        assert log(e) + p + q == log(e) + (p + q);
      } else {
        assert VisitKids(v, z, e) == r1;
        assert p + q == p;
      }
    }
  }

  /** Walking a whole tree from its root is visiting it. */
  lemma WalkIsVisit<E>(v: Visitor<E>, t: FTree, e: E)
    ensures var z := Zipper(t, []);
            WalkDown(v, z, e) == (match Visit(v, z, e)
                                  case Failure(err) => Failure(err)
                                  case Success((z1, e1)) => Success((z1.focus, e1)))
  {
    WalkDownVisits(v, Zipper(t, []), e);
  }

  /** A node's place, as the index of each step down: `|left|` of every
      frame. */
  function Address(path: seq<Frame>): (a: seq<nat>)
    ensures |a| == |path|
    ensures forall i :: 0 <= i < |path| ==> a[i] == |path[i].left|
    decreases |path|
  {
    if path == [] then [] else Address(Outer(path)) + [|Last(path).left|]
  }
}
