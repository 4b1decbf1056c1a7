/** The child reconciler (packages/react-reconciler/src/childFibers.ts):
    given the fiber being worked on (`returnFiber`), its current children
    and the new children value, it builds the new child chain, reusing old
    fibers where keys and types allow, marks insertions and moves with
    `Placement`, and records old children to delete on the parent.

    `track` is `shouldTrackEffects`: the update reconciler
    (`reconcileChildFibers`) tracks effects, the mount reconciler
    (`mountChildFibers`) does not. The old children are the current sibling
    chain as a sequence; the result chain is a sequence too, so `sibling`
    and `return` links are implicit. */
module ChildFibers {
  import opened Wrappers
  import opened JsValues
  import opened FiberFlags
  import opened Fibers

  /** The parent after reconciliation (its `deletions` and `flags` may have
      changed) and the new child chain, in sibling order. */
  datatype Reconciled = Reconciled(returnFiber: Fiber, children: seq<Fiber>)

  /** The fibers queued for deletion, `[]` when `deletions` is null. */
  function Deletions(f: Fiber): seq<FTree> {
    if f.deletions.Some? then f.deletions.value else []
  }

  // ---------------------------------------------------------------- deletion bookkeeping

  /** `after` is `before` with at most its deletions changed and
      `ChildDeletion` added. */
  predicate OnlyDeletions(before: Fiber, after: Fiber) {
    && after == before.(deletions := after.deletions, flags := after.flags)
    && (after.flags == before.flags || after.flags == before.flags | ChildDeletion)
  }

  lemma ChildDeletionIdempotent(f: Flags)
    ensures (f | ChildDeletion) | ChildDeletion == f | ChildDeletion
  {
  }

  lemma OnlyDeletionsTransitive(a: Fiber, b: Fiber, c: Fiber)
    requires OnlyDeletions(a, b) && OnlyDeletions(b, c)
    ensures OnlyDeletions(a, c)
  {
    ChildDeletionSteps(a.flags, b.flags, c.flags);
  }

  lemma ChildDeletionSteps(fa: Flags, fb: Flags, fc: Flags)
    requires fb == fa || fb == fa | ChildDeletion
    requires fc == fb || fc == fb | ChildDeletion
    ensures fc == fa || fc == fa | ChildDeletion
  {
    ChildDeletionIdempotent(fa);
  }

  /** `deleteChild(returnFiber, childToDelete)`. */
  function DeleteChild(track: bool, returnFiber: Fiber, child: FTree): (r: Fiber)
    ensures !track ==> r == returnFiber
    ensures track ==> r.deletions.Some? && Deletions(r) == Deletions(returnFiber) + [child]
    ensures track ==> r.flags == if returnFiber.deletions.None? then returnFiber.flags | ChildDeletion else returnFiber.flags
    ensures r == returnFiber.(deletions := r.deletions, flags := r.flags)
  {
    if !track then returnFiber
    else
      match returnFiber.deletions
      case None => returnFiber.(deletions := Some([child]), flags := returnFiber.flags | ChildDeletion)
      case Some(ds) => returnFiber.(deletions := Some(ds + [child]))
  }

  /** `deleteRemainingChildren(returnFiber, currentFirstChild)`: every fiber
      of `kids` is queued, in sibling order; `ChildDeletion` is added with
      the first deletion ever queued and the flags are otherwise unchanged. */
  function DeleteRemainingChildren(track: bool, returnFiber: Fiber, kids: seq<FTree>): (r: Fiber)
    ensures !track || kids == [] ==> r == returnFiber
    ensures track ==> Deletions(r) == Deletions(returnFiber) + kids
    ensures track && kids != [] ==>
              r.deletions.Some?
              && r.flags == if returnFiber.deletions.None? then returnFiber.flags | ChildDeletion else returnFiber.flags
    ensures r == returnFiber.(deletions := r.deletions, flags := r.flags)
    decreases |kids|
  {
    if !track || kids == [] then returnFiber
    else
      var r := DeleteRemainingChildren(track, DeleteChild(track, returnFiber, kids[0]), kids[1..]);
      assert kids == [kids[0]] + kids[1..];
      r
  }

  /** Queueing two runs of children one after the other is queueing their
      concatenation. */
  lemma {:induction false} DeleteRemainingConcat(track: bool, returnFiber: Fiber, a: seq<FTree>, b: seq<FTree>)
    ensures DeleteRemainingChildren(track, DeleteRemainingChildren(track, returnFiber, a), b)
            == DeleteRemainingChildren(track, returnFiber, a + b)
    decreases |a|
  {
    if track && a != [] {
      assert (a + b)[0] == a[0] && (a + b)[1..] == a[1..] + b;
      DeleteRemainingConcat(track, DeleteChild(track, returnFiber, a[0]), a[1..], b);
    } else if track {
      assert a + b == b;
    }
  }

  /** Deleting one child and then a run is deleting the longer run. */
  lemma DeleteChildThenRest(track: bool, returnFiber: Fiber, child: FTree, rest: seq<FTree>)
    ensures DeleteRemainingChildren(track, DeleteChild(track, returnFiber, child), rest)
            == DeleteRemainingChildren(track, returnFiber, [child] + rest)
  {
    assert ([child] + rest)[0] == child && ([child] + rest)[1..] == rest;
  }

  // ---------------------------------------------------------------- new fibers

  /** `useFiber(fiber, pendingProps)`: a work-in-progress copy of an old
      fiber with the new props, index 0 and no flags. */
  function UseFiber(olds: FTree, pendingProps: Value): (f: Fiber)
    ensures f.alternate == Some(olds) && f.pendingProps == pendingProps && f.index == 0
    ensures f.tag == olds.fiber.tag && f.key == olds.fiber.key && f.typ == olds.fiber.typ
    ensures f.flags == NoFlags && f.deletions.None?
  {
    CreateWorkInProgress(olds, pendingProps).(index := 0)
  }

  /** `createFiberFromElement(element)`: a host component for a string type,
      a function component for any other type. */
  function CreateFiberFromElement(element: Value): (f: Fiber)
    requires IsObject(element)
    ensures f.alternate.None? && f.flags == NoFlags && f.index == 0
    ensures f.typ == Prop(element, "type") && f.key == Prop(element, "key")
    ensures f.pendingProps == Prop(element, "props")
    ensures f.tag == (if Prop(element, "type").Str? then HostComponent else FunctionComponent)
  {
    var ty := Prop(element, "type");
    var tag := if ty.Str? then HostComponent else FunctionComponent;
    NewFiber(tag, Prop(element, "props"), Prop(element, "key")).(typ := ty)
  }

  /** `{ content }`. */
  function ContentProps(content: Value): Value {
    Obj(map["content" := content])
  }

  /** `element + ''` for a string or number. */
  function TextOf(v: Value): string
    requires IsText(v)
  {
    if v.Str? then v.s else IntToString(v.n)
  }

  /** A value whose `$$typeof` is the element symbol. */
  predicate IsElement(v: Value) {
    IsObject(v) && Prop(v, "$$typeof") == Symbol(ElementSymbol)
  }

  /** `placeSingleChild(fiber)`. */
  function PlaceSingleChild(track: bool, f: Fiber): (r: Fiber)
    ensures HasAny(r.flags, Placement) <==> HasAny(f.flags, Placement) || (track && f.alternate.None?)
    ensures r == f.(flags := r.flags)
    ensures !HasAny(r.flags ^ f.flags, !Placement)
  {
    if track && f.alternate.None? then f.(flags := f.flags | Placement) else f
  }

  // ---------------------------------------------------------------- single element

  /** The first old fiber at or after `i` whose key is `key`, or `|olds|`. */
  function FirstKeyMatch(olds: seq<FTree>, key: Value, i: nat): (j: nat)
    requires i <= |olds|
    ensures i <= j <= |olds|
    ensures j < |olds| ==> olds[j].fiber.key == key
    ensures forall k :: i <= k < j ==> olds[k].fiber.key != key
    decreases |olds| - i
  {
    if i == |olds| || olds[i].fiber.key == key then i else FirstKeyMatch(olds, key, i + 1)
  }

  /** The loop of `reconcileSingleElement` from old child `i` on. With
      `fixed`, reusing a fiber deletes the old children after it; as
      written (`!fixed`) it deletes the siblings of the fresh copy, which
      has none. */
  function SingleElementFrom(track: bool, fixed: bool, returnFiber: Fiber, olds: seq<FTree>, i: nat,
                             element: Value): (r: Reconciled)
    requires IsObject(element) && i <= |olds|
    ensures |r.children| == 1 && r.children[0].flags == NoFlags
    ensures OnlyDeletions(returnFiber, r.returnFiber) && (!track ==> r.returnFiber == returnFiber)
    decreases |olds| - i
  {
    if i == |olds| then Reconciled(returnFiber, [CreateFiberFromElement(element)])
    else
      var current := olds[i];
      if current.fiber.key == Prop(element, "key") then
        if Prop(element, "$$typeof") == Symbol(ElementSymbol) then
          if current.fiber.typ == Prop(element, "type") then
            var existing := UseFiber(current, Prop(element, "props"));
            Reconciled(if fixed then DeleteRemainingChildren(track, returnFiber, olds[i + 1..]) else returnFiber, [existing])
          else
            Reconciled(DeleteRemainingChildren(track, returnFiber, olds[i..]), [CreateFiberFromElement(element)])
        else
          Reconciled(returnFiber, [CreateFiberFromElement(element)])
      else
        var rf1 := DeleteChild(track, returnFiber, current);
        var r := SingleElementFrom(track, fixed, rf1, olds, i + 1, element);
        OnlyDeletionsTransitive(returnFiber, rf1, r.returnFiber);
        r
  }

  /** A fiber for `element`: its type, key and props, and no effects yet. */
  predicate ElementFiber(element: Value, f: Fiber)
    requires IsObject(element)
  {
    f.typ == Prop(element, "type") && f.key == Prop(element, "key") && f.pendingProps == Prop(element, "props")
  }

  /** The old child an element takes over: the first with the element's
      key, when it also has the element's type. */
  function ElementReuse(olds: seq<FTree>, element: Value): Option<FTree>
    requires IsObject(element)
  {
    var j := FirstKeyMatch(olds, Prop(element, "key"), 0);
    if j < |olds| && olds[j].fiber.typ == Prop(element, "type") then Some(olds[j]) else None
  }

  /** `reconcileSingleElement` as written: one fiber of the element's type,
      key and props, new or taken over from an old child. */
  function ReconcileSingleElementAsWritten(track: bool, returnFiber: Fiber, olds: seq<FTree>, element: Value): (r: Reconciled)
    requires IsElement(element)
    ensures |r.children| == 1 && ElementFiber(element, r.children[0]) && r.children[0].alternate == ElementReuse(olds, element)
    ensures r.children[0].flags == NoFlags && OnlyDeletions(returnFiber, r.returnFiber)
  {
    SingleElementFromSpec(track, false, returnFiber, olds, 0, element);
    SingleElementFrom(track, false, returnFiber, olds, 0, element)
  }

  /** `reconcileSingleElement`, deleting the old fibers after a reused one. */
  function ReconcileSingleElement(track: bool, returnFiber: Fiber, olds: seq<FTree>, element: Value): (r: Reconciled)
    requires IsElement(element)
    ensures |r.children| == 1 && ElementFiber(element, r.children[0]) && r.children[0].alternate == ElementReuse(olds, element)
    ensures r.children[0].flags == NoFlags && OnlyDeletions(returnFiber, r.returnFiber)
  {
    SingleElementFromSpec(track, true, returnFiber, olds, 0, element);
    SingleElementFrom(track, true, returnFiber, olds, 0, element)
  }

  /** The old fiber `reconcileSingleElement` reuses: the first one with the
      element's key, provided it also has the element's type. */
  predicate ReusesAt(olds: seq<FTree>, element: Value, j: nat)
    requires IsObject(element)
  {
    j == FirstKeyMatch(olds, Prop(element, "key"), 0) && j < |olds| && olds[j].fiber.typ == Prop(element, "type")
  }

  /** The old fibers the single-element loop deletes from `i` on, given
      the first key match `j` and whether it is reused. */
  function ElementDeletes(fixed: bool, olds: seq<FTree>, i: nat, j: nat, reuse: bool): seq<FTree>
    requires i <= j <= |olds| && (reuse ==> j < |olds|)
  {
    if reuse then olds[i..j] + (if fixed then olds[j + 1..] else []) else olds[i..]
  }

  lemma ElementDeletesStep(fixed: bool, olds: seq<FTree>, i: nat, j: nat, reuse: bool)
    requires i < j <= |olds| && (reuse ==> j < |olds|)
    ensures ElementDeletes(fixed, olds, i, j, reuse) == [olds[i]] + ElementDeletes(fixed, olds, i + 1, j, reuse)
  {
    if j < |olds| {
      var a, b := olds[i + 1..j], olds[j + 1..];
      assert olds[i..j] == [olds[i]] + a;
      assert ([olds[i]] + a) + b == [olds[i]] + (a + b);
    } else {
      assert olds[i..] == [olds[i]] + olds[i + 1..];
    }
  }

  /** What the single-element loop does from old child `i`: with `j` the
      first key match, the old fiber at `j` is reused exactly when its type
      matches, and otherwise a fresh fiber is made. Every old fiber before
      `j` is deleted; after a reuse the later ones are deleted only when
      `fixed`; without a reuse, all remaining old fibers are. */
  predicate SingleElementMeets(track: bool, fixed: bool, returnFiber: Fiber, olds: seq<FTree>, i: nat, element: Value)
    requires IsElement(element) && i <= |olds|
  {
    var r := SingleElementFrom(track, fixed, returnFiber, olds, i, element);
    var j := FirstKeyMatch(olds, Prop(element, "key"), i);
    var reuse := j < |olds| && olds[j].fiber.typ == Prop(element, "type");
    && r.children[0] == (if reuse then UseFiber(olds[j], Prop(element, "props")) else CreateFiberFromElement(element))
    && r.returnFiber == DeleteRemainingChildren(track, returnFiber, ElementDeletes(fixed, olds, i, j, reuse))
  }

  lemma {:induction false} SingleElementFromSpec(track: bool, fixed: bool, returnFiber: Fiber, olds: seq<FTree>,
                                                 i: nat, element: Value)
    requires IsElement(element) && i <= |olds|
    ensures SingleElementMeets(track, fixed, returnFiber, olds, i, element)
    decreases |olds| - i
  {
    if i == |olds| {
      assert ElementDeletes(fixed, olds, i, i, false) == [];
    } else if olds[i].fiber.key == Prop(element, "key") {
      SingleElementKeyMatch(track, fixed, returnFiber, olds, i, element);
    } else {
      SingleElementFromSpec(track, fixed, DeleteChild(track, returnFiber, olds[i]), olds, i + 1, element);
      SingleElementKeyMiss(track, fixed, returnFiber, olds, i, element);
    }
  }

  /** The step of the loop past an old fiber with another key: it is
      deleted, ahead of whatever the rest of the loop deletes. */
  lemma SingleElementKeyMiss(track: bool, fixed: bool, returnFiber: Fiber, olds: seq<FTree>, i: nat, element: Value)
    requires IsElement(element) && i < |olds| && olds[i].fiber.key != Prop(element, "key")
    requires SingleElementMeets(track, fixed, DeleteChild(track, returnFiber, olds[i]), olds, i + 1, element)
    ensures SingleElementMeets(track, fixed, returnFiber, olds, i, element)
  {
    var key := Prop(element, "key");
    var j := FirstKeyMatch(olds, key, i);
    var reuse := j < |olds| && olds[j].fiber.typ == Prop(element, "type");
    SingleElementSkips(track, fixed, returnFiber, olds, i, element);
    ElementDeletesStep(fixed, olds, i, j, reuse);
    DeleteChildThenRest(track, returnFiber, olds[i], ElementDeletes(fixed, olds, i + 1, j, reuse));
  }

  lemma SingleElementSkips(track: bool, fixed: bool, returnFiber: Fiber, olds: seq<FTree>, i: nat, element: Value)
    requires IsElement(element) && i < |olds| && olds[i].fiber.key != Prop(element, "key")
    ensures SingleElementFrom(track, fixed, returnFiber, olds, i, element)
            == SingleElementFrom(track, fixed, DeleteChild(track, returnFiber, olds[i]), olds, i + 1, element)
    ensures FirstKeyMatch(olds, Prop(element, "key"), i) == FirstKeyMatch(olds, Prop(element, "key"), i + 1)
  {
  }

  /** The step of the loop that finds the key: the fiber is reused when
      the type matches too, and otherwise every remaining fiber is deleted. */
  lemma SingleElementKeyMatch(track: bool, fixed: bool, returnFiber: Fiber, olds: seq<FTree>, i: nat, element: Value)
    requires IsElement(element) && i < |olds| && olds[i].fiber.key == Prop(element, "key")
    ensures var r := SingleElementFrom(track, fixed, returnFiber, olds, i, element);
            var reuse := olds[i].fiber.typ == Prop(element, "type");
            && r.children[0] == (if reuse then UseFiber(olds[i], Prop(element, "props")) else CreateFiberFromElement(element))
            && r.returnFiber == DeleteRemainingChildren(track, returnFiber, ElementDeletes(fixed, olds, i, i, reuse))
  {
    if olds[i].fiber.typ == Prop(element, "type") {
      assert olds[i..i] == [];
      assert ElementDeletes(fixed, olds, i, i, true) == if fixed then olds[i + 1..] else [];
    } else {
      assert ElementDeletes(fixed, olds, i, i, false) == olds[i..];
    }
  }

  /** The reconciler keeps the old child of the element's key and type
      and deletes every other old child. */
  lemma ReconcileSingleElementDeletesOthers(track: bool, returnFiber: Fiber, olds: seq<FTree>, element: Value, j: nat)
    requires IsElement(element) && ReusesAt(olds, element, j)
    ensures var r := ReconcileSingleElement(track, returnFiber, olds, element);
            r.children[0].alternate == Some(olds[j])
            && r.returnFiber == DeleteRemainingChildren(track, returnFiber, olds[..j] + olds[j + 1..])
  {
    SingleElementFromSpec(track, true, returnFiber, olds, 0, element);
    assert olds[0..j] == olds[..j];
  }

  /** When no old child has the element's key and type, a fresh fiber is
      made and every old child is deleted. */
  lemma ReconcileSingleElementFresh(track: bool, returnFiber: Fiber, olds: seq<FTree>, element: Value)
    requires IsElement(element) && forall k :: 0 <= k < |olds| ==> !ReusesAt(olds, element, k)
    ensures var r := ReconcileSingleElement(track, returnFiber, olds, element);
            r.children[0].alternate.None?
            && r.returnFiber == DeleteRemainingChildren(track, returnFiber, olds)
  {
    SingleElementFromSpec(track, true, returnFiber, olds, 0, element);
    assert olds[0..] == olds;
    var jj := FirstKeyMatch(olds, Prop(element, "key"), 0);
    if jj < |olds| {
      assert !ReusesAt(olds, element, jj);
    }
  }

  /** As written, reusing an old fiber deletes only the old fibers before
      it: those after it stay attached. */
  lemma ReconcileSingleElementAsWrittenKeepsLater(track: bool, returnFiber: Fiber, olds: seq<FTree>, element: Value, j: nat)
    requires IsElement(element)
    requires ReusesAt(olds, element, j)
    ensures var r := ReconcileSingleElementAsWritten(track, returnFiber, olds, element);
            r.children[0].alternate == Some(olds[j])
            && r.returnFiber == DeleteRemainingChildren(track, returnFiber, olds[..j])
  {
    SingleElementFromSpec(track, false, returnFiber, olds, 0, element);
    assert olds[0..j] + [] == olds[..j];
  }

  /** Two old children `<div key="a"/>`, `<p key="b"/>` updated to a single
      `<div key="a"/>`: as written, the `p` is never queued for deletion,
      while the corrected reconciler queues it. */
  lemma SingleElementLeavesSiblingAlive()
    ensures var a := Node(NewFiber(HostComponent, Null, Str("a")).(typ := Str("div")), []);
            var b := Node(NewFiber(HostComponent, Null, Str("b")).(typ := Str("p")), []);
            var parent := NewFiber(HostComponent, Null, Null);
            var element := Elem(ElementSymbol, Str("div"), Str("a"), Null, Obj(map[]));
            Deletions(ReconcileSingleElementAsWritten(true, parent, [a, b], element).returnFiber) == []
            && Deletions(ReconcileSingleElement(true, parent, [a, b], element).returnFiber) == [b]
  {
    var a := Node(NewFiber(HostComponent, Null, Str("a")).(typ := Str("div")), []);
    var b := Node(NewFiber(HostComponent, Null, Str("b")).(typ := Str("p")), []);
    var parent := NewFiber(HostComponent, Null, Null);
    var element := Elem(ElementSymbol, Str("div"), Str("a"), Null, Obj(map[]));
    assert ReusesAt([a, b], element, 0);
    ReconcileSingleElementAsWrittenKeepsLater(true, parent, [a, b], element, 0);
    ReconcileSingleElementDeletesOthers(true, parent, [a, b], element, 0);
    assert [a, b][..0] == [];
    assert [a, b][..0] + [a, b][1..] == [b];
  }

  // ---------------------------------------------------------------- single text node

  /** The first old fiber at or after `i` that is a HostText, or `|olds|`. */
  function FirstText(olds: seq<FTree>, i: nat): (j: nat)
    requires i <= |olds|
    ensures i <= j <= |olds|
    ensures j < |olds| ==> olds[j].fiber.tag == HostText
    ensures forall k :: i <= k < j ==> olds[k].fiber.tag != HostText
    decreases |olds| - i
  {
    if i == |olds| || olds[i].fiber.tag == HostText then i else FirstText(olds, i + 1)
  }

  /** The loop of `reconcileSingleTextNode` from old child `i` on. */
  function SingleTextFrom(track: bool, returnFiber: Fiber, olds: seq<FTree>, i: nat, content: Value): (r: Reconciled)
    requires i <= |olds|
    ensures |r.children| == 1 && r.children[0].flags == NoFlags
    ensures OnlyDeletions(returnFiber, r.returnFiber) && (!track ==> r.returnFiber == returnFiber)
    decreases |olds| - i
  {
    if i == |olds| then Reconciled(returnFiber, [NewFiber(HostText, ContentProps(content), Null)])
    else if olds[i].fiber.tag == HostText then
      Reconciled(DeleteRemainingChildren(track, returnFiber, olds[i + 1..]), [UseFiber(olds[i], ContentProps(content))])
    else
      var rf1 := DeleteChild(track, returnFiber, olds[i]);
      var r := SingleTextFrom(track, rf1, olds, i + 1, content);
      OnlyDeletionsTransitive(returnFiber, rf1, r.returnFiber);
      r
  }

  /** `reconcileSingleTextNode(returnFiber, currentFiber, content)`: one
      text fiber holding the content, new or taken over from an old one. */
  function ReconcileSingleTextNode(track: bool, returnFiber: Fiber, olds: seq<FTree>, content: Value): (r: Reconciled)
    ensures |r.children| == 1 && r.children[0].tag == HostText && r.children[0].pendingProps == ContentProps(content)
    ensures r.children[0].alternate == (var j := FirstText(olds, 0); if j < |olds| then Some(olds[j]) else None)
    ensures r.children[0].flags == NoFlags && OnlyDeletions(returnFiber, r.returnFiber)
  {
    SingleTextFromSpec(track, returnFiber, olds, 0, content);
    SingleTextFrom(track, returnFiber, olds, 0, content)
  }

  /** The old fibers the single-text loop deletes from `i` on, given the
      first text fiber `j` (or `|olds|`). */
  function TextDeletes(olds: seq<FTree>, i: nat, j: nat): seq<FTree>
    requires i <= j <= |olds|
  {
    if j < |olds| then olds[i..j] + olds[j + 1..] else olds[i..]
  }

  lemma TextDeletesStep(olds: seq<FTree>, i: nat, j: nat)
    requires i < j <= |olds|
    ensures TextDeletes(olds, i, j) == [olds[i]] + TextDeletes(olds, i + 1, j)
  {
    if j < |olds| {
      var a, b := olds[i + 1..j], olds[j + 1..];
      assert olds[i..j] == [olds[i]] + a;
      assert ([olds[i]] + a) + b == [olds[i]] + (a + b);
    } else {
      assert olds[i..] == [olds[i]] + olds[i + 1..];
    }
  }

  /** The first old text fiber from `i` on is reused with the new content
      and every other old fiber from `i` on is deleted; with no old text
      fiber, a new one is made and all of them are deleted. */
  predicate SingleTextMeets(track: bool, returnFiber: Fiber, olds: seq<FTree>, i: nat, content: Value)
    requires i <= |olds|
  {
    var r := SingleTextFrom(track, returnFiber, olds, i, content);
    var j := FirstText(olds, i);
    && r.children[0] == (if j < |olds| then UseFiber(olds[j], ContentProps(content))
                         else NewFiber(HostText, ContentProps(content), Null))
    && r.returnFiber == DeleteRemainingChildren(track, returnFiber, TextDeletes(olds, i, j))
  }

  lemma {:induction false} SingleTextFromSpec(track: bool, returnFiber: Fiber, olds: seq<FTree>, i: nat, content: Value)
    requires i <= |olds|
    ensures SingleTextMeets(track, returnFiber, olds, i, content)
    decreases |olds| - i
  {
    if i == |olds| || olds[i].fiber.tag == HostText {
      SingleTextHit(track, returnFiber, olds, i, content);
    } else {
      SingleTextFromSpec(track, DeleteChild(track, returnFiber, olds[i]), olds, i + 1, content);
      SingleTextSkip(track, returnFiber, olds, i, content);
    }
  }

  /** An old fiber that is not a text is deleted, and the search goes on
      from the next one. */
  lemma SingleTextSkip(track: bool, returnFiber: Fiber, olds: seq<FTree>, i: nat, content: Value)
    requires i < |olds| && olds[i].fiber.tag != HostText
    requires SingleTextMeets(track, DeleteChild(track, returnFiber, olds[i]), olds, i + 1, content)
    ensures SingleTextMeets(track, returnFiber, olds, i, content)
  {
    var j := FirstText(olds, i);
    SingleTextSkips(track, returnFiber, olds, i, content);
    TextDeletesStep(olds, i, j);
    DeleteChildThenRest(track, returnFiber, olds[i], TextDeletes(olds, i + 1, j));
  }

  /** The end of the old fibers, or an old text fiber: the search stops. */
  lemma SingleTextHit(track: bool, returnFiber: Fiber, olds: seq<FTree>, i: nat, content: Value)
    requires i <= |olds| && (i == |olds| || olds[i].fiber.tag == HostText)
    ensures SingleTextMeets(track, returnFiber, olds, i, content)
  {
    if i == |olds| {
      assert TextDeletes(olds, i, FirstText(olds, i)) == [];
    } else {
      assert olds[i..i] + olds[i + 1..] == olds[i + 1..];
    }
  }

  lemma SingleTextSkips(track: bool, returnFiber: Fiber, olds: seq<FTree>, i: nat, content: Value)
    requires i < |olds| && olds[i].fiber.tag != HostText
    ensures SingleTextFrom(track, returnFiber, olds, i, content)
            == SingleTextFrom(track, DeleteChild(track, returnFiber, olds[i]), olds, i + 1, content)
    ensures FirstText(olds, i) == FirstText(olds, i + 1)
  {
  }

  /** `reconcileSingleTextNode` reuses the first old text fiber with the new
      content and deletes every other old child. */
  lemma ReconcileSingleTextNodeSpec(track: bool, returnFiber: Fiber, olds: seq<FTree>, content: Value)
    ensures var r := ReconcileSingleTextNode(track, returnFiber, olds, content);
            var j := FirstText(olds, 0);
            && (j < |olds| ==> r.children[0].alternate == Some(olds[j])
                                && r.children[0].pendingProps == ContentProps(content)
                                && r.returnFiber == DeleteRemainingChildren(track, returnFiber, olds[..j] + olds[j + 1..]))
            && (j == |olds| ==> r.children[0].alternate.None? && r.children[0].tag == HostText
                                 && r.children[0].pendingProps == ContentProps(content)
                                 && r.returnFiber == DeleteRemainingChildren(track, returnFiber, olds))
  {
    SingleTextFromSpec(track, returnFiber, olds, 0, content);
    assert olds[0..] == olds;
    assert olds[0..FirstText(olds, 0)] == olds[..FirstText(olds, 0)];
  }

  // ---------------------------------------------------------------- the key map

  /** An entry of `existingChildren`. The map is a sequence of entries in
      insertion order, as a JavaScript `Map` iterates. */
  datatype Entry = Entry(key: Value, fiber: FTree)

  /** `current.key !== null ? current.key : current.index`. */
  function KeyToUse(f: Fiber): Value {
    if f.key != Null then f.key else Num(f.index)
  }

  predicate DistinctKeys(m: seq<Entry>) {
    forall i, j :: 0 <= i < j < |m| ==> m[i].key != m[j].key
  }

  /** The position of `k` in the map, or -1. */
  function Find(m: seq<Entry>, k: Value): (r: int)
    ensures -1 <= r < |m|
    ensures r >= 0 ==> m[r].key == k && forall i :: 0 <= i < r ==> m[i].key != k
    ensures r < 0 ==> forall i :: 0 <= i < |m| ==> m[i].key != k
    decreases |m|
  {
    if m == [] then -1
    else if m[|m| - 1].key == k && Find(m[..|m| - 1], k) < 0 then |m| - 1
    else Find(m[..|m| - 1], k)
  }

  /** `map.get(k)`. */
  function MapGet(m: seq<Entry>, k: Value): (r: Option<FTree>)
    ensures r.Some? <==> Find(m, k) >= 0
    ensures r.Some? ==> r.value == m[Find(m, k)].fiber
  {
    var i := Find(m, k);
    if i >= 0 then Some(m[i].fiber) else None
  }

  /** `map.set(k, v)`: an existing key keeps its place and gets the new
      value; a new key goes last. */
  function MapSet(m: seq<Entry>, k: Value, v: FTree): (r: seq<Entry>)
    ensures DistinctKeys(m) ==> DistinctKeys(r)
    ensures MapGet(r, k) == Some(v)
  {
    var i := Find(m, k);
    if i >= 0 then
      var r := m[i := Entry(k, v)];
      assert Find(r, k) == i by { FindUnique(r, k, i); }
      r
    else
      var r := m + [Entry(k, v)];
      assert Find(r, k) == |m| by { FindUnique(r, k, |m|); }
      r
  }

  /** `map.delete(k)`. */
  function MapDelete(m: seq<Entry>, k: Value): (r: seq<Entry>)
    ensures DistinctKeys(m) ==> DistinctKeys(r)
    ensures Find(m, k) >= 0 ==> |r| == |m| - 1
    ensures Find(m, k) < 0 ==> r == m
  {
    var i := Find(m, k);
    if i >= 0 then m[..i] + m[i + 1..] else m
  }

  /** Deleting one key leaves the lookup of every other key alone. */
  lemma {:induction false} MapDeleteOther(m: seq<Entry>, k: Value, other: Value)
    requires k != other
    ensures MapGet(MapDelete(m, other), k) == MapGet(m, k)
  {
    var i := Find(m, other);
    if i >= 0 {
      var p := Find(m, k);
      assert p != i;
      if p < 0 {
        DeleteKeepsAbsent(m, i, k);
      } else {
        DeleteKeepsFound(m, i, k, p);
      }
    }
  }

  /** A key missing from the map is still missing once position `i` is
      taken out. */
  lemma DeleteKeepsAbsent(m: seq<Entry>, i: nat, k: Value)
    requires i < |m| && Find(m, k) < 0
    ensures Find(m[..i] + m[i + 1..], k) < 0
  {
    var d := m[..i] + m[i + 1..];
    DeletedLayout(m, i);
    forall q | 0 <= q < |d| ensures d[q].key != k {
      assert d[q] == m[if q < i then q else q + 1];
    }
  }

  /** A key found at `p` is found at the same entry once another position
      `i` is taken out. */
  lemma DeleteKeepsFound(m: seq<Entry>, i: nat, k: Value, p: nat)
    requires i < |m| && p < |m| && p != i && Find(m, k) == p
    ensures var d := m[..i] + m[i + 1..];
            var pd := if p < i then p else p - 1;
            Find(d, k) == pd && d[pd] == m[p]
  {
    var d := m[..i] + m[i + 1..];
    DeletedLayout(m, i);
    var pd := if p < i then p else p - 1;
    forall j | 0 <= j < pd ensures d[j].key != k {
      assert d[j] == m[if j < i then j else j + 1];
    }
    FindUnique(d, k, pd);
  }

  /** The entries of a map with position `i` taken out. */
  lemma DeletedLayout(m: seq<Entry>, i: nat)
    requires i < |m|
    ensures var d := m[..i] + m[i + 1..];
            && |d| == |m| - 1
            && (forall q :: 0 <= q < i ==> d[q] == m[q])
            && (forall q :: i <= q < |d| ==> d[q] == m[q + 1])
  {
  }

  lemma FindUnique(m: seq<Entry>, k: Value, i: nat)
    requires i < |m| && m[i].key == k
    requires forall j :: 0 <= j < i ==> m[j].key != k
    ensures Find(m, k) == i
  {
  }

  /** The map's values in insertion order (what `forEach` visits). */
  function Values(m: seq<Entry>): (r: seq<FTree>)
    ensures |r| == |m|
    ensures forall i :: 0 <= i < |m| ==> r[i] == m[i].fiber
  {
    seq(|m|, i requires 0 <= i < |m| => m[i].fiber)
  }

  /** Deleting the key `map.get` found removes exactly its value. */
  lemma MapDeleteValues(m: seq<Entry>, k: Value)
    requires MapGet(m, k).Some?
    ensures multiset(Values(MapDelete(m, k))) + multiset{MapGet(m, k).value} == multiset(Values(m))
  {
    var i := Find(m, k);
    var x, y := m[..i], m[i + 1..];
    assert m == x + [m[i]] + y;
    assert MapDelete(m, k) == x + y;
    ValuesConcat(x + [m[i]], y);
    ValuesConcat(x, [m[i]]);
    ValuesConcat(x, y);
    var a, b := Values(x), Values(y);
    assert Values([m[i]]) == [m[i].fiber];
    assert multiset(a + [m[i].fiber] + b) == multiset(a) + multiset{m[i].fiber} + multiset(b);
    assert multiset(a + b) == multiset(a) + multiset(b);
  }

  lemma ValuesConcat(x: seq<Entry>, y: seq<Entry>)
    ensures Values(x + y) == Values(x) + Values(y)
  {
  }

  /** Step 1 of `reconcileChildrenArray`: the old fibers keyed by
      `KeyToUse`, in sibling order. */
  function BuildMap(m: seq<Entry>, olds: seq<FTree>): (r: seq<Entry>)
    ensures DistinctKeys(m) ==> DistinctKeys(r)
    decreases |olds|
  {
    if olds == [] then m else BuildMap(MapSet(m, KeyToUse(olds[0].fiber), olds[0]), olds[1..])
  }

  /** Old fibers with pairwise different keys. */
  predicate DistinctOldKeys(olds: seq<FTree>) {
    forall i, j :: 0 <= i < j < |olds| ==> KeyToUse(olds[i].fiber) != KeyToUse(olds[j].fiber)
  }

  lemma ValuesAppend(m: seq<Entry>, e: Entry)
    ensures Values(m + [e]) == Values(m) + [e.fiber]
  {
  }

  /** No key of the map is the key of one of the old fibers. */
  predicate FreshKeys(m: seq<Entry>, olds: seq<FTree>) {
    forall i, j :: 0 <= i < |m| && 0 <= j < |olds| ==> m[i].key != KeyToUse(olds[j].fiber)
  }

  /** Moving the first old fiber into the map keeps the preconditions of
      `BuildMapValues` for the rest. */
  lemma BuildMapStep(m: seq<Entry>, olds: seq<FTree>)
    requires olds != [] && DistinctKeys(m) && DistinctOldKeys(olds) && FreshKeys(m, olds)
    ensures var m1 := m + [Entry(KeyToUse(olds[0].fiber), olds[0])];
            DistinctKeys(m1) && DistinctOldKeys(olds[1..]) && FreshKeys(m1, olds[1..])
            && MapSet(m, KeyToUse(olds[0].fiber), olds[0]) == m1
  {
    var k := KeyToUse(olds[0].fiber);
    var m1 := m + [Entry(k, olds[0])];
    assert Find(m, k) < 0;
    assert FreshKeys(m1, olds[1..]) by {
      forall i, j | 0 <= i < |m1| && 0 <= j < |olds[1..]|
        ensures m1[i].key != KeyToUse(olds[1..][j].fiber)
      {
        assert olds[1..][j] == olds[j + 1];
      }
    }
    assert DistinctOldKeys(olds[1..]) by {
      forall i, j | 0 <= i < j < |olds[1..]| ensures KeyToUse(olds[1..][i].fiber) != KeyToUse(olds[1..][j].fiber) {
        assert olds[1..][i] == olds[i + 1] && olds[1..][j] == olds[j + 1];
      }
    }
  }

  lemma AppendHead<T>(a: seq<T>, s: seq<T>)
    requires s != []
    ensures (a + [s[0]]) + s[1..] == a + s
  {
    assert s == [s[0]] + s[1..];
  }

  /** With distinct keys, the map holds every old fiber exactly once. */
  lemma {:induction false} BuildMapValues(m: seq<Entry>, olds: seq<FTree>)
    requires DistinctKeys(m) && DistinctOldKeys(olds) && FreshKeys(m, olds)
    ensures Values(BuildMap(m, olds)) == Values(m) + olds
    decreases |olds|
  {
    if olds != [] {
      var e := Entry(KeyToUse(olds[0].fiber), olds[0]);
      var m1 := m + [e];
      BuildMapStep(m, olds);
      assert BuildMap(m, olds) == BuildMap(m1, olds[1..]);
      BuildMapValues(m1, olds[1..]);
      ValuesAppend(m, e);
      AppendHead(Values(m), olds);
    }
  }

  /** The first old fiber whose key (or index) is `k`. */
  function OldByKey(olds: seq<FTree>, k: Value): (r: Option<FTree>)
    ensures r.Some? ==> r.value in olds && KeyToUse(r.value.fiber) == k
    ensures r.None? <==> forall p :: 0 <= p < |olds| ==> KeyToUse(olds[p].fiber) != k
    decreases |olds|
  {
    if olds == [] then None
    else if KeyToUse(olds[0].fiber) == k then Some(olds[0])
    else
      var r := OldByKey(olds[1..], k);
      assert forall p :: 1 <= p < |olds| ==> olds[p] == olds[1..][p - 1];
      r
  }

  /** `map.get` after appending an entry: an earlier entry wins. */
  lemma MapGetAppend(m: seq<Entry>, e: Entry, k: Value)
    ensures MapGet(m + [e], k) == if MapGet(m, k).Some? then MapGet(m, k) else if e.key == k then Some(e.fiber) else None
  {
    assert (m + [e])[..|m|] == m;
  }

  lemma {:induction false} BuildMapGetFrom(m: seq<Entry>, olds: seq<FTree>, k: Value)
    requires DistinctKeys(m) && DistinctOldKeys(olds) && FreshKeys(m, olds)
    ensures MapGet(BuildMap(m, olds), k) == if MapGet(m, k).Some? then MapGet(m, k) else OldByKey(olds, k)
    decreases |olds|
  {
    if olds != [] {
      var e := Entry(KeyToUse(olds[0].fiber), olds[0]);
      BuildMapStep(m, olds);
      assert BuildMap(m, olds) == BuildMap(m + [e], olds[1..]);
      BuildMapGetFrom(m + [e], olds[1..], k);
      MapGetAppend(m, e, k);
    }
  }

  /** With distinct old keys, looking a key up in the map built from the
      old fibers finds the old fiber with that key, if any. */
  lemma BuildMapGet(olds: seq<FTree>, k: Value)
    requires DistinctOldKeys(olds)
    ensures MapGet(BuildMap([], olds), k) == OldByKey(olds, k)
  {
    BuildMapGetFrom([], olds, k);
  }

  // ---------------------------------------------------------------- updateFromMap

  /** The items that yield a fiber: strings, numbers and elements. */
  predicate Produces(item: Value) {
    IsText(item) || IsElement(item)
  }

  /** The props of the fiber an item yields. */
  function ItemProps(item: Value): Value
    requires Produces(item)
  {
    if IsText(item) then ContentProps(Str(TextOf(item))) else Prop(item, "props")
  }

  /** `getKey(item)` on an item that is neither null nor undefined: its key,
      or, when the key is null, its `index` property (undefined for
      elements, so keyless elements never find an old fiber). */
  function GetKey(item: Value): Value
    requires item != Null && item != Undefined
  {
    if Prop(item, "key") != Null then Prop(item, "key") else Prop(item, "index")
  }

  /** An item may take over an old fiber: text over a text fiber, an
      element over a fiber of the same `type`. */
  predicate Matches(item: Value, prior: FTree)
    requires item != Null && item != Undefined
  {
    if IsText(item) then prior.fiber.tag == HostText else IsElement(item) && prior.fiber.typ == Prop(item, "type")
  }

  /** `updateFromMap(returnFiber, existingChildren, index, element)` for an
      item that is neither null nor undefined: the new fiber (if the item
      yields one) and the map without the entry it reused. The old fiber
      under the item's key is reused exactly when the item matches it. */
  function UpdateFromMap(m: seq<Entry>, item: Value): (r: (seq<Entry>, Option<Fiber>))
    requires item != Null && item != Undefined
    ensures r.1.Some? <==> Produces(item)
    ensures r.1.Some? ==>
              (r.1.value.alternate.Some? <==> MapGet(m, GetKey(item)).Some? && Matches(item, MapGet(m, GetKey(item)).value))
    ensures r.1.Some? ==> r.1.value.pendingProps == ItemProps(item) && r.1.value.flags == NoFlags
    ensures r.1.Some? && r.1.value.alternate.Some? ==>
              MapGet(m, GetKey(item)) == r.1.value.alternate && r.0 == MapDelete(m, GetKey(item))
    ensures r.1.None? || r.1.value.alternate.None? ==> r.0 == m
  {
    var key := GetKey(item);
    var before := MapGet(m, key);
    if IsText(item) then
      var props := ContentProps(Str(TextOf(item)));
      if before.Some? && before.value.fiber.tag == HostText then
        (MapDelete(m, key), Some(UseFiber(before.value, props)))
      else
        (m, Some(NewFiber(HostText, props, Null)))
    else if IsElement(item) then
      if before.Some? && before.value.fiber.typ == Prop(item, "type") then
        (MapDelete(m, key), Some(UseFiber(before.value, Prop(item, "props"))))
      else
        (m, Some(CreateFiberFromElement(item)))
    else
      (m, None)
  }

  // ---------------------------------------------------------------- reconcileChildrenArray

  /** The old index of a reused fiber. */
  function OldIndex(f: Fiber): nat
    requires f.alternate.Some?
  {
    f.alternate.value.fiber.index
  }

  /** Step 3 for one new fiber: set its index and decide Placement against
      `lastPlacedIndex`. Returns the fiber and the new `lastPlacedIndex`. */
  function PlaceInArray(track: bool, f: Fiber, i: nat, lastPlacedIndex: nat): (r: (Fiber, nat))
    ensures r.0 == f.(index := i, flags := r.0.flags)
    ensures !track ==> r.0.flags == f.flags && r.1 == lastPlacedIndex
  {
    var f1 := f.(index := i);
    if !track then (f1, lastPlacedIndex)
    else if f1.alternate.Some? then
      if OldIndex(f1) < lastPlacedIndex then (f1.(flags := f1.flags | Placement), lastPlacedIndex)
      else (f1, OldIndex(f1))
    else (f1.(flags := f1.flags | Placement), lastPlacedIndex)
  }

  /** The loop of step 2 from item `i` on, followed by step 4, with null and
      undefined items skipped. */
  function ArrayFrom(track: bool, returnFiber: Fiber, m: seq<Entry>, items: seq<Value>, i: nat,
                     lastPlacedIndex: nat, chain: seq<Fiber>): (r: Reconciled)
    requires i <= |items|
    ensures OnlyDeletions(returnFiber, r.returnFiber) && (!track ==> r.returnFiber == returnFiber)
    decreases |items| - i
  {
    if i == |items| then Reconciled(DeleteRemainingChildren(track, returnFiber, Values(m)), chain)
    else if items[i] == Null || items[i] == Undefined then
      ArrayFrom(track, returnFiber, m, items, i + 1, lastPlacedIndex, chain)
    else
      var (m', nf) := UpdateFromMap(m, items[i]);
      match nf
      case None => ArrayFrom(track, returnFiber, m', items, i + 1, lastPlacedIndex, chain)
      case Some(f) =>
        var (f1, lpi) := PlaceInArray(track, f, i, lastPlacedIndex);
        ArrayFrom(track, returnFiber, m', items, i + 1, lpi, chain + [f1])
  }

  /** The same loop as written: `getKey` reads `item.key` before any type
      test, so a null or undefined item throws. */
  function ArrayFromAsWritten(track: bool, returnFiber: Fiber, m: seq<Entry>, items: seq<Value>, i: nat,
                              lastPlacedIndex: nat, chain: seq<Fiber>): (r: Result<Reconciled, JsError>)
    requires i <= |items|
    decreases |items| - i
  {
    if i == |items| then Success(Reconciled(DeleteRemainingChildren(track, returnFiber, Values(m)), chain))
    else if items[i] == Null || items[i] == Undefined then
      Failure(TypeError("Cannot read properties of null (reading 'key')"))
    else
      var (m', nf) := UpdateFromMap(m, items[i]);
      match nf
      case None => ArrayFromAsWritten(track, returnFiber, m', items, i + 1, lastPlacedIndex, chain)
      case Some(f) =>
        var (f1, lpi) := PlaceInArray(track, f, i, lastPlacedIndex);
        ArrayFromAsWritten(track, returnFiber, m', items, i + 1, lpi, chain + [f1])
  }

  /** `reconcileChildrenArray` as written. */
  function ReconcileChildrenArrayAsWritten(track: bool, returnFiber: Fiber, olds: seq<FTree>, items: seq<Value>)
    : (r: Result<Reconciled, JsError>)
    ensures r.Failure? <==> exists k :: 0 <= k < |items| && (items[k] == Null || items[k] == Undefined)
    ensures r.Success? ==> r.value == ReconcileChildrenArray(track, returnFiber, olds, items)
  {
    ArrayAsWrittenAgrees(track, returnFiber, BuildMap([], olds), items, 0, 0, []);
    ArrayFromAsWritten(track, returnFiber, BuildMap([], olds), items, 0, 0, [])
  }

  /** `reconcileChildrenArray`, skipping null and undefined items: one
      fiber per item that yields one, in item order and at the item's
      index, and the parent changed only by deletions. */
  function ReconcileChildrenArray(track: bool, returnFiber: Fiber, olds: seq<FTree>, items: seq<Value>): (r: Reconciled)
    ensures ChainPositions(items, r.children, |items|)
    ensures OnlyDeletions(returnFiber, r.returnFiber) && (!track ==> r.returnFiber == returnFiber)
  {
    ArrayPositions(track, returnFiber, BuildMap([], olds), items, 0, 0, []);
    ArrayFrom(track, returnFiber, BuildMap([], olds), items, 0, 0, [])
  }

  /** The loop as written throws exactly when a null or undefined item is
      left to visit, and otherwise agrees with the corrected loop. */
  lemma {:induction false} ArrayAsWrittenAgrees(track: bool, returnFiber: Fiber, m: seq<Entry>, items: seq<Value>,
                                                i: nat, lastPlacedIndex: nat, chain: seq<Fiber>)
    requires i <= |items|
    ensures var r := ArrayFromAsWritten(track, returnFiber, m, items, i, lastPlacedIndex, chain);
            (r.Failure? <==> exists k :: i <= k < |items| && (items[k] == Null || items[k] == Undefined))
            && (r.Success? ==> r.value == ArrayFrom(track, returnFiber, m, items, i, lastPlacedIndex, chain))
    decreases |items| - i
  {
    if i < |items| && items[i] != Null && items[i] != Undefined {
      var (m', nf) := UpdateFromMap(m, items[i]);
      match nf
      case None =>
        ArrayAsWrittenAgrees(track, returnFiber, m', items, i + 1, lastPlacedIndex, chain);
      case Some(f) =>
        var (f1, lpi) := PlaceInArray(track, f, i, lastPlacedIndex);
        ArrayAsWrittenAgrees(track, returnFiber, m', items, i + 1, lpi, chain + [f1]);
    }
  }

  /** `[null, <p/>]`: as written the array reconciler throws on the null
      item, while the corrected one skips it and yields the `p`. */
  lemma ArrayWithNullItem(track: bool, returnFiber: Fiber, olds: seq<FTree>)
    ensures var p := Elem(ElementSymbol, Str("p"), Null, Null, Obj(map[]));
            var r := ReconcileChildrenArray(track, returnFiber, olds, [Null, p]);
            && ReconcileChildrenArrayAsWritten(track, returnFiber, olds, [Null, p]).Failure?
            && |r.children| == 1 && r.children[0].index == 1 && r.children[0].pendingProps == Obj(map[])
  {
    var p := Elem(ElementSymbol, Str("p"), Null, Null, Obj(map[]));
    var items := [Null, p];
    ParagraphItem();
    assert items[0] == Null;
    ReconcileChildrenArraySpec(track, returnFiber, olds, items);
    OneProducerAfterSkip(items, ReconcileChildrenArray(track, returnFiber, olds, items).children);
  }

  lemma ParagraphItem()
    ensures var p := Elem(ElementSymbol, Str("p"), Null, Null, Obj(map[]));
            Produces(p) && ItemProps(p) == Obj(map[]) && !Produces(Null)
  {
  }

  /** Two items of which only the second yields a fiber give a chain of
      that one fiber. */
  lemma OneProducerAfterSkip(items: seq<Value>, chain: seq<Fiber>)
    requires |items| == 2 && !Produces(items[0]) && Produces(items[1])
    requires ChainPositions(items, chain, 2)
    ensures |chain| == 1 && chain[0].index == 1 && chain[0].pendingProps == ItemProps(items[1])
  {
    assert forall k :: 0 <= k < |chain| ==> 1 <= chain[k].index < 2 by {
      forall k | 0 <= k < |chain| ensures 1 <= chain[k].index < 2 {
        assert Produces(items[chain[k].index]);
      }
    }
    IncreasingIndexesBound(chain, 1, 2);
    assert exists j :: 0 <= j < |chain| && chain[j].index == 1;
  }

  /** Strictly increasing indexes in `[lo, hi)` are at most `hi - lo`. */
  lemma {:induction false} IncreasingIndexesBound(chain: seq<Fiber>, lo: nat, hi: nat)
    requires forall j, k :: 0 <= j < k < |chain| ==> chain[j].index < chain[k].index
    requires forall k :: 0 <= k < |chain| ==> lo <= chain[k].index < hi
    ensures chain == [] || |chain| + lo <= hi
    decreases |chain|
  {
    if chain != [] {
      var rest := chain[1..];
      assert forall j, k :: 0 <= j < k < |rest| ==> rest[j].index < rest[k].index by {
        forall j, k | 0 <= j < k < |rest| ensures rest[j].index < rest[k].index {
          assert rest[j] == chain[j + 1] && rest[k] == chain[k + 1];
        }
      }
      assert forall k :: 0 <= k < |rest| ==> chain[0].index + 1 <= rest[k].index < hi by {
        forall k | 0 <= k < |rest| ensures chain[0].index + 1 <= rest[k].index < hi {
          assert rest[k] == chain[k + 1];
        }
      }
      IncreasingIndexesBound(rest, chain[0].index + 1, hi);
    }
  }

  // ---------------------------------------------------------------- array: positions

  /** The chain's fibers come from producing items, in item order, and
      carry their item's props. */
  ghost predicate ChainPositions(items: seq<Value>, chain: seq<Fiber>, i: nat) {
    && (forall j :: 0 <= j < |chain| ==> chain[j].index < i && chain[j].index < |items|
                                         && Produces(items[chain[j].index])
                                         && chain[j].pendingProps == ItemProps(items[chain[j].index]))
    && (forall j, k :: 0 <= j < k < |chain| ==> chain[j].index < chain[k].index)
    && (forall idx :: 0 <= idx < i && idx < |items| && Produces(items[idx]) ==>
          exists j :: 0 <= j < |chain| && chain[j].index == idx)
  }

  /** Appending the fiber of item `i` keeps the chain's invariant. */
  lemma ChainPositionsStep(items: seq<Value>, chain: seq<Fiber>, i: nat, f: Fiber)
    requires i < |items| && ChainPositions(items, chain, i)
    requires Produces(items[i]) && f.index == i && f.pendingProps == ItemProps(items[i])
    ensures ChainPositions(items, chain + [f], i + 1)
  {
    var chain' := chain + [f];
    forall idx | 0 <= idx < i + 1 && idx < |items| && Produces(items[idx])
      ensures exists j :: 0 <= j < |chain'| && chain'[j].index == idx
    {
      if idx == i {
        assert chain'[|chain|].index == idx;
      } else {
        var j :| 0 <= j < |chain| && chain[j].index == idx;
        assert chain'[j].index == idx;
      }
    }
  }

  /** Skipping an item that yields nothing keeps the chain's invariant. */
  lemma ChainPositionsSkip(items: seq<Value>, chain: seq<Fiber>, i: nat)
    requires i < |items| && ChainPositions(items, chain, i) && !Produces(items[i])
    ensures ChainPositions(items, chain, i + 1)
  {
  }

  /** Every item that yields a fiber yields exactly one, at its own index,
      in item order; items that yield nothing are skipped. */
  lemma {:induction false} ArrayPositions(track: bool, returnFiber: Fiber, m: seq<Entry>, items: seq<Value>,
                                          i: nat, lastPlacedIndex: nat, chain: seq<Fiber>)
    requires i <= |items|
    requires ChainPositions(items, chain, i)
    ensures ChainPositions(items, ArrayFrom(track, returnFiber, m, items, i, lastPlacedIndex, chain).children, |items|)
    decreases |items| - i
  {
    if i < |items| {
      if items[i] == Null || items[i] == Undefined {
        ChainPositionsSkip(items, chain, i);
        ArrayPositions(track, returnFiber, m, items, i + 1, lastPlacedIndex, chain);
      } else {
        var (m', nf) := UpdateFromMap(m, items[i]);
        match nf
        case None =>
          ChainPositionsSkip(items, chain, i);
          ArrayPositions(track, returnFiber, m', items, i + 1, lastPlacedIndex, chain);
        case Some(f) =>
          var (f1, lpi) := PlaceInArray(track, f, i, lastPlacedIndex);
          ChainPositionsStep(items, chain, i, f1);
          ArrayPositions(track, returnFiber, m', items, i + 1, lpi, chain + [f1]);
      }
    }
  }

  // ---------------------------------------------------------------- array: placement

  /** The largest old index among the reused fibers of `chain`, or 0. */
  function MaxOldIndex(chain: seq<Fiber>): (r: nat)
    ensures forall k :: 0 <= k < |chain| && chain[k].alternate.Some? ==> OldIndex(chain[k]) <= r
    ensures r > 0 ==> exists k :: 0 <= k < |chain| && chain[k].alternate.Some? && OldIndex(chain[k]) == r
    decreases |chain|
  {
    if chain == [] then 0
    else
      var init := chain[..|chain| - 1];
      var last := chain[|chain| - 1];
      var m := MaxOldIndex(init);
      assert forall k :: 0 <= k < |init| ==> init[k] == chain[k];
      if last.alternate.Some? && OldIndex(last) > m then OldIndex(last) else m
  }

  /** The Placement rule on a chain: a fiber is placed exactly when it is
      new, or when an earlier reused fiber came from a later old position. */
  ghost predicate PlacementRule(chain: seq<Fiber>) {
    forall j :: 0 <= j < |chain| ==>
      (HasAny(chain[j].flags, Placement) <==>
         chain[j].alternate.None?
         || exists k :: 0 <= k < j && chain[k].alternate.Some? && OldIndex(chain[k]) > OldIndex(chain[j]))
  }

  /** Flags of a fiber that has just been reconciled: nothing or Placement. */
  ghost predicate FreshFlags(chain: seq<Fiber>) {
    forall j :: 0 <= j < |chain| ==> chain[j].flags == NoFlags || chain[j].flags == NoFlags | Placement
  }

  lemma PlacementBits()
    ensures !HasAny(NoFlags, Placement) && HasAny(NoFlags | Placement, Placement)
  {
  }

  /** With effects tracked, `lastPlacedIndex` is the largest old index of a
      reused fiber so far, and a fiber gets Placement exactly when it is
      new or an earlier reused fiber had a larger old index: reused fibers
      keep their relative old order, and the others are moved or inserted. */
  lemma {:induction false} ArrayPlacement(returnFiber: Fiber, m: seq<Entry>, items: seq<Value>,
                                          i: nat, lastPlacedIndex: nat, chain: seq<Fiber>)
    requires i <= |items|
    requires lastPlacedIndex == MaxOldIndex(chain)
    requires PlacementRule(chain) && FreshFlags(chain)
    ensures var r := ArrayFrom(true, returnFiber, m, items, i, lastPlacedIndex, chain);
            PlacementRule(r.children) && FreshFlags(r.children)
    decreases |items| - i
  {
    if i < |items| {
      if items[i] == Null || items[i] == Undefined {
        ArrayPlacement(returnFiber, m, items, i + 1, lastPlacedIndex, chain);
      } else {
        var (m', nf) := UpdateFromMap(m, items[i]);
        match nf
        case None =>
          ArrayPlacement(returnFiber, m', items, i + 1, lastPlacedIndex, chain);
        case Some(f) =>
          var (f1, lpi) := PlaceInArray(true, f, i, lastPlacedIndex);
          ArrayPlacementStep(f, i, lastPlacedIndex, chain);
          ArrayPlacement(returnFiber, m', items, i + 1, lpi, chain + [f1]);
      }
    }
  }

  /** Placing one more fresh fiber keeps `lastPlacedIndex` the largest old
      index and the Placement rule. */
  lemma ArrayPlacementStep(f: Fiber, i: nat, lastPlacedIndex: nat, chain: seq<Fiber>)
    requires lastPlacedIndex == MaxOldIndex(chain) && PlacementRule(chain) && FreshFlags(chain)
    requires f.flags == NoFlags
    ensures var (f1, lpi) := PlaceInArray(true, f, i, lastPlacedIndex);
            lpi == MaxOldIndex(chain + [f1]) && PlacementRule(chain + [f1]) && FreshFlags(chain + [f1])
  {
    var r := PlaceInArray(true, f, i, lastPlacedIndex);
    var f1 := r.0;
    PlacementBits();
    assert f1.alternate == f.alternate;
    assert f1.flags == if f1.alternate.None? || OldIndex(f1) < lastPlacedIndex then NoFlags | Placement else NoFlags;
    MaxOldIndexStep(chain, f1);
    PlacementRuleStep(chain, f1, lastPlacedIndex);
    FreshFlagsStep(chain, f1);
  }

  lemma FreshFlagsStep(chain: seq<Fiber>, f1: Fiber)
    requires FreshFlags(chain) && (f1.flags == NoFlags || f1.flags == NoFlags | Placement)
    ensures FreshFlags(chain + [f1])
  {
    assert forall k :: 0 <= k < |chain| ==> (chain + [f1])[k] == chain[k];
  }

  lemma MaxOldIndexStep(chain: seq<Fiber>, f: Fiber)
    ensures MaxOldIndex(chain + [f])
            == if f.alternate.Some? && OldIndex(f) > MaxOldIndex(chain) then OldIndex(f) else MaxOldIndex(chain)
  {
    assert (chain + [f])[..|chain|] == chain;
  }

  lemma PlacementRuleStep(chain: seq<Fiber>, f1: Fiber, lastPlacedIndex: nat)
    requires lastPlacedIndex == MaxOldIndex(chain) && PlacementRule(chain)
    requires HasAny(f1.flags, Placement) <==> f1.alternate.None? || OldIndex(f1) < lastPlacedIndex
    ensures PlacementRule(chain + [f1])
  {
    var chain' := chain + [f1];
    var j := |chain|;
    assert forall k :: 0 <= k < |chain| ==> chain'[k] == chain[k];
    if f1.alternate.Some? {
      if OldIndex(f1) < lastPlacedIndex {
        var k :| 0 <= k < |chain| && chain[k].alternate.Some? && OldIndex(chain[k]) == lastPlacedIndex;
        assert chain'[k] == chain[k];
      } else {
        forall k | 0 <= k < j && chain'[k].alternate.Some?
          ensures OldIndex(chain'[k]) <= OldIndex(chain'[j])
        {
          assert chain'[k] == chain[k];
        }
      }
    }
  }

  /** Without tracking, no fiber of the chain gets a flag and the parent
      is left alone. */
  lemma {:induction false} ArrayMountIsQuiet(returnFiber: Fiber, m: seq<Entry>, items: seq<Value>,
                                             i: nat, lastPlacedIndex: nat, chain: seq<Fiber>)
    requires i <= |items|
    requires forall j :: 0 <= j < |chain| ==> chain[j].flags == NoFlags
    ensures var r := ArrayFrom(false, returnFiber, m, items, i, lastPlacedIndex, chain);
            r.returnFiber == returnFiber && forall j :: 0 <= j < |r.children| ==> r.children[j].flags == NoFlags
    decreases |items| - i
  {
    if i < |items| {
      if items[i] == Null || items[i] == Undefined {
        ArrayMountIsQuiet(returnFiber, m, items, i + 1, lastPlacedIndex, chain);
      } else {
        var (m', nf) := UpdateFromMap(m, items[i]);
        match nf
        case None =>
          ArrayMountIsQuiet(returnFiber, m', items, i + 1, lastPlacedIndex, chain);
        case Some(f) =>
          var (f1, lpi) := PlaceInArray(false, f, i, lastPlacedIndex);
          ArrayMountIsQuiet(returnFiber, m', items, i + 1, lpi, chain + [f1]);
      }
    }
  }

  // ---------------------------------------------------------------- array: deletions

  /** The old fibers the chain reuses, in chain order. */
  function Reused(chain: seq<Fiber>): (r: seq<FTree>)
    decreases |chain|
  {
    if chain == [] then []
    else
      var last := chain[|chain| - 1];
      Reused(chain[..|chain| - 1]) + (if last.alternate.Some? then [last.alternate.value] else [])
  }

  /** Each old fiber in the map is either reused (and leaves the map) or
      is still in the map at the end, where it is deleted. */
  lemma {:induction false} ArrayReuseOrDelete(track: bool, returnFiber: Fiber, m: seq<Entry>, items: seq<Value>,
                                              i: nat, lastPlacedIndex: nat, chain: seq<Fiber>)
    requires i <= |items|
    ensures var r := ArrayFrom(track, returnFiber, m, items, i, lastPlacedIndex, chain);
            track ==> multiset(Reused(r.children)) + multiset(Deletions(r.returnFiber))
                      == multiset(Reused(chain)) + multiset(Values(m)) + multiset(Deletions(returnFiber))
    decreases |items| - i
  {
    if i < |items| {
      if items[i] == Null || items[i] == Undefined {
        ArrayReuseOrDelete(track, returnFiber, m, items, i + 1, lastPlacedIndex, chain);
      } else {
        var (m', nf) := UpdateFromMap(m, items[i]);
        match nf
        case None =>
          ArrayReuseOrDelete(track, returnFiber, m', items, i + 1, lastPlacedIndex, chain);
        case Some(f) =>
          var (f1, lpi) := PlaceInArray(track, f, i, lastPlacedIndex);
          var chain' := chain + [f1];
          assert chain'[..|chain'| - 1] == chain;
          assert f1.alternate == f.alternate;
          if f.alternate.Some? {
            MapDeleteValues(m, GetKey(items[i]));
            assert Reused(chain') == Reused(chain) + [f.alternate.value];
          } else {
            assert Reused(chain') == Reused(chain);
          }
          ArrayReuseOrDelete(track, returnFiber, m', items, i + 1, lpi, chain');
      }
    }
  }

  /** With distinct old keys, every old child is either reused once by the
      new chain or queued for deletion once. */
  lemma ReconcileChildrenArrayAccounts(returnFiber: Fiber, olds: seq<FTree>, items: seq<Value>)
    requires DistinctOldKeys(olds)
    ensures var r := ReconcileChildrenArray(true, returnFiber, olds, items);
            multiset(Reused(r.children)) + multiset(Deletions(r.returnFiber))
            == multiset(olds) + multiset(Deletions(returnFiber))
  {
    BuildMapValues([], olds);
    assert Values([]) + olds == olds;
    ArrayReuseOrDelete(true, returnFiber, BuildMap([], olds), items, 0, 0, []);
  }

  /** The array reconciler's contract: the chain lists the producing items
      in order at their own indexes, Placement follows the move rule, and
      the mount reconciler changes neither flags nor the parent. */
  lemma ReconcileChildrenArraySpec(track: bool, returnFiber: Fiber, olds: seq<FTree>, items: seq<Value>)
    ensures var r := ReconcileChildrenArray(track, returnFiber, olds, items);
            ChainPositions(items, r.children, |items|)
            && (track ==> PlacementRule(r.children))
            && (!track ==> r.returnFiber == returnFiber && forall j :: 0 <= j < |r.children| ==> r.children[j].flags == NoFlags)
  {
    ArrayPositions(track, returnFiber, BuildMap([], olds), items, 0, 0, []);
    if track {
      ArrayPlacement(returnFiber, BuildMap([], olds), items, 0, 0, []);
    } else {
      ArrayMountIsQuiet(returnFiber, BuildMap([], olds), items, 0, 0, []);
    }
  }

  // ---------------------------------------------------------------- array: reuse

  /** An item that `getKey` can read. */
  predicate Keyed(item: Value) {
    item != Null && item != Undefined
  }

  /** The fiber made for `item` takes over `found`, the old fiber under the
      item's key, exactly when the item matches it. */
  predicate TakesOver(item: Value, found: Option<FTree>, f: Fiber)
    requires Keyed(item)
  {
    (f.alternate.Some? <==> found.Some? && Matches(item, found.value)) && (f.alternate.Some? ==> f.alternate == found)
  }

  /** Every fiber of the chain takes over what the initial map holds under
      its item's key. */
  ghost predicate ChainTakesOver(items: seq<Value>, m0: seq<Entry>, chain: seq<Fiber>) {
    forall j :: 0 <= j < |chain| ==>
      chain[j].index < |items| && Keyed(items[chain[j].index])
      && TakesOver(items[chain[j].index], MapGet(m0, GetKey(items[chain[j].index])), chain[j])
  }

  /** For the items still to come, the map answers as the initial one. */
  ghost predicate LookupsKept(items: seq<Value>, m: seq<Entry>, m0: seq<Entry>, i: nat) {
    forall idx :: i <= idx < |items| && Keyed(items[idx]) ==> MapGet(m, GetKey(items[idx])) == MapGet(m0, GetKey(items[idx]))
  }

  /** Items that share a key find no old fiber under it. */
  ghost predicate SharedKeysAbsent(items: seq<Value>, m0: seq<Entry>) {
    forall a, b :: 0 <= a < b < |items| && Keyed(items[a]) && Keyed(items[b]) && GetKey(items[a]) == GetKey(items[b])
                   ==> MapGet(m0, GetKey(items[a])).None?
  }

  /** `updateFromMap` removes only the key of the item it handles, so the
      later items still see the initial map. */
  lemma LookupsKeptStep(items: seq<Value>, m: seq<Entry>, m0: seq<Entry>, i: nat)
    requires i < |items| && Keyed(items[i])
    requires LookupsKept(items, m, m0, i) && SharedKeysAbsent(items, m0)
    ensures LookupsKept(items, UpdateFromMap(m, items[i]).0, m0, i + 1)
  {
    var k := GetKey(items[i]);
    var r := UpdateFromMap(m, items[i]);
    forall idx | i + 1 <= idx < |items| && Keyed(items[idx])
      ensures MapGet(r.0, GetKey(items[idx])) == MapGet(m0, GetKey(items[idx]))
    {
      var k2 := GetKey(items[idx]);
      if k2 != k {
        MapDeleteOther(m, k2, k);
      } else {
        assert MapGet(m0, k).None?;
      }
    }
  }

  lemma {:induction false} ArrayTakesOver(track: bool, returnFiber: Fiber, m0: seq<Entry>, m: seq<Entry>, items: seq<Value>,
                                          i: nat, lastPlacedIndex: nat, chain: seq<Fiber>)
    requires i <= |items|
    requires SharedKeysAbsent(items, m0) && LookupsKept(items, m, m0, i) && ChainTakesOver(items, m0, chain)
    ensures ChainTakesOver(items, m0, ArrayFrom(track, returnFiber, m, items, i, lastPlacedIndex, chain).children)
    decreases |items| - i
  {
    if i < |items| {
      if items[i] == Null || items[i] == Undefined {
        ArrayTakesOver(track, returnFiber, m0, m, items, i + 1, lastPlacedIndex, chain);
      } else {
        var (m', nf) := UpdateFromMap(m, items[i]);
        LookupsKeptStep(items, m, m0, i);
        match nf
        case None =>
          ArrayTakesOver(track, returnFiber, m0, m', items, i + 1, lastPlacedIndex, chain);
        case Some(f) =>
          var (f1, lpi) := PlaceInArray(track, f, i, lastPlacedIndex);
          var chain' := chain + [f1];
          assert f1.alternate == f.alternate && f1.index == i;
          assert TakesOver(items[i], MapGet(m0, GetKey(items[i])), f1);
          assert forall j :: 0 <= j < |chain| ==> chain'[j] == chain[j];
          assert ChainTakesOver(items, m0, chain');
          ArrayTakesOver(track, returnFiber, m0, m', items, i + 1, lpi, chain');
      }
    }
  }

  /** The array reconciler reuses an old child exactly when an item matches
      the old child with its key: an element of the same `type`, or text
      over a text fiber. Otherwise the item gets a new fiber. This holds
      when old keys are distinct and items share only keys no old child
      has. */
  lemma ReconcileChildrenArrayReuses(track: bool, returnFiber: Fiber, olds: seq<FTree>, items: seq<Value>)
    requires DistinctOldKeys(olds)
    requires forall a, b :: 0 <= a < b < |items| && Keyed(items[a]) && Keyed(items[b]) && GetKey(items[a]) == GetKey(items[b])
                            ==> OldByKey(olds, GetKey(items[a])).None?
    ensures var r := ReconcileChildrenArray(track, returnFiber, olds, items);
            forall j :: 0 <= j < |r.children| ==>
              r.children[j].index < |items| && Keyed(items[r.children[j].index])
              && TakesOver(items[r.children[j].index], OldByKey(olds, GetKey(items[r.children[j].index])), r.children[j])
  {
    var m0 := BuildMap([], olds);
    forall k ensures MapGet(m0, k) == OldByKey(olds, k) {
      BuildMapGet(olds, k);
    }
    ArrayTakesOver(track, returnFiber, m0, m0, items, 0, 0, []);
  }

  // ---------------------------------------------------------------- reconcileChildFibers

  /** What the new children are for each kind of `newChild`: one fiber of
      the element's type, key and props; one text fiber holding the
      content; the array's items that yield a fiber, in order and at their
      indexes; or none. */
  ghost predicate ChildrenFit(newChild: Value, children: seq<Fiber>) {
    if IsElement(newChild) then |children| == 1 && ElementFiber(newChild, children[0])
    else if newChild.Arr? then ChainPositions(newChild.items, children, |newChild.items|)
    else if IsText(newChild) then |children| == 1 && children[0].tag == HostText && children[0].pendingProps == ContentProps(newChild)
    else children == []
  }

  /** `reconcileChildFibers(returnFiber, currentFiber, newChild)` /
      `mountChildFibers(...)` as written: it throws exactly on an array
      with a null or undefined item. */
  function ReconcileChildFibersAsWritten(track: bool, returnFiber: Fiber, olds: seq<FTree>, newChild: Value)
    : (r: Result<Reconciled, JsError>)
    ensures r.Failure? <==> newChild.Arr? && exists k :: 0 <= k < |newChild.items| && (newChild.items[k] == Null || newChild.items[k] == Undefined)
    ensures r.Success? ==> ChildrenFit(newChild, r.value.children) && OnlyDeletions(returnFiber, r.value.returnFiber)
  {
    if IsElement(newChild) then
      var s := ReconcileSingleElementAsWritten(track, returnFiber, olds, newChild);
      Success(Reconciled(s.returnFiber, [PlaceSingleChild(track, s.children[0])]))
    else if newChild.Arr? then
      ReconcileChildrenArrayAsWritten(track, returnFiber, olds, newChild.items)
    else if IsText(newChild) then
      var s := ReconcileSingleTextNode(track, returnFiber, olds, newChild);
      Success(Reconciled(s.returnFiber, [PlaceSingleChild(track, s.children[0])]))
    else
      Success(Reconciled(if olds != [] then DeleteChild(track, returnFiber, olds[0]) else returnFiber, []))
  }

  /** `reconcileChildFibers` with the corrected single-element and array
      reconcilers, and with the fallback deleting every old child. */
  function ReconcileChildFibers(track: bool, returnFiber: Fiber, olds: seq<FTree>, newChild: Value): (r: Reconciled)
    ensures ChildrenFit(newChild, r.children) && OnlyDeletions(returnFiber, r.returnFiber)
    ensures IsElement(newChild) ==> r.children[0].alternate == ElementReuse(olds, newChild)
  {
    if IsElement(newChild) then
      var s := ReconcileSingleElement(track, returnFiber, olds, newChild);
      Reconciled(s.returnFiber, [PlaceSingleChild(track, s.children[0])])
    else if newChild.Arr? then
      ReconcileChildrenArray(track, returnFiber, olds, newChild.items)
    else if IsText(newChild) then
      var s := ReconcileSingleTextNode(track, returnFiber, olds, newChild);
      Reconciled(s.returnFiber, [PlaceSingleChild(track, s.children[0])])
    else
      Reconciled(DeleteRemainingChildren(track, returnFiber, olds), [])
  }

  /** A value that is not an element, array, string or number leaves no
      children; the corrected fallback deletes every old child, the one as
      written only the first. */
  lemma FallbackDeletes(track: bool, returnFiber: Fiber, olds: seq<FTree>, newChild: Value)
    requires !IsElement(newChild) && !newChild.Arr? && !IsText(newChild)
    ensures var r := ReconcileChildFibers(track, returnFiber, olds, newChild);
            r.children == [] && (track ==> Deletions(r.returnFiber) == Deletions(returnFiber) + olds)
    ensures var r := ReconcileChildFibersAsWritten(track, returnFiber, olds, newChild);
            r.Success? && r.value.children == []
            && (track ==> Deletions(r.value.returnFiber) == Deletions(returnFiber) + olds[..if olds == [] then 0 else 1])
  {
  }

  /** Two old children replaced by `null`: as written only the first is
      queued for deletion. */
  lemma FallbackLeavesSiblingAlive(a: FTree, b: FTree, returnFiber: Fiber)
    ensures Deletions(ReconcileChildFibersAsWritten(true, returnFiber, [a, b], Null).value.returnFiber)
            == Deletions(returnFiber) + [a]
    ensures Deletions(ReconcileChildFibers(true, returnFiber, [a, b], Null).returnFiber)
            == Deletions(returnFiber) + [a, b]
  {
    FallbackDeletes(true, returnFiber, [a, b], Null);
    assert [a, b][..1] == [a];
  }

  /** With tracking, a single new child that is not reused is placed; the
      mount reconciler never queues deletions and never places a child. */
  lemma ReconcileChildFibersPlacement(track: bool, returnFiber: Fiber, olds: seq<FTree>, newChild: Value)
    requires IsElement(newChild) || IsText(newChild)
    ensures var r := ReconcileChildFibers(track, returnFiber, olds, newChild);
            |r.children| == 1
            && (HasAny(r.children[0].flags, Placement) <==> track && r.children[0].alternate.None?)
            && (!track ==> r.returnFiber == returnFiber)
  {
    var r := ReconcileChildFibers(track, returnFiber, olds, newChild);
    if IsElement(newChild) {
      SingleElementFromSpec(track, true, returnFiber, olds, 0, newChild);
    } else {
      SingleTextFromSpec(track, returnFiber, olds, 0, newChild);
    }
    PlacementBits();
  }

  /** The mount reconciler leaves the parent alone and marks no child. */
  lemma MountLeavesNoMarks(returnFiber: Fiber, olds: seq<FTree>, newChild: Value)
    ensures var r := ReconcileChildFibers(false, returnFiber, olds, newChild);
            r.returnFiber == returnFiber && forall j :: 0 <= j < |r.children| ==> r.children[j].flags == NoFlags
  {
    if newChild.Arr? && !IsElement(newChild) {
      ArrayMountIsQuiet(returnFiber, BuildMap([], olds), newChild.items, 0, 0, []);
    }
  }
}
