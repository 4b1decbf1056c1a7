/** The JSX snapshot of the noop renderer's host tree
    (packages/react-noop-renderer/src/root.ts): `parseChildToJSX` and
    `getChildrenAsJSX`, which tests use to compare the rendered host
    nodes with expected JSX.

    Host nodes are read from the store of `NoopHost`. The recursion of the
    source ends because host nodes form finite trees; here that is the
    ghost `rank`, which every child has smaller than its parent. */
module NoopRoot {
  import opened Wrappers
  import opened JsValues
  import opened NoopHost

  /** The host nodes form finite trees: each child exists and has a
      smaller rank than its parent. */
  ghost predicate Ranked(h: Host, rank: map<nat, nat>) {
    forall id :: id in h.nodes ==>
      id in rank && (IsParentNode(h.nodes[id]) ==>
                      forall c :: c in ChildrenOf(h.nodes[id]) ==> c in h.nodes && c in rank && rank[c] < rank[id])
  }

  /** What `parseChildToJSX` is called on: a string, a number, an array
      of host nodes or one host node. */
  datatype Child = TextChild(s: string) | NumberChild(n: int) | NodesChild(ids: seq<nat>) | NodeChild(id: nat)

  /** The string a primitive contributes to `join('')`. */
  function TextOf(v: Value): string
    requires IsText(v)
  {
    if v.Str? then v.s else IntToString(v.n)
  }

  /** `children.join('')` of primitives. */
  function JoinTexts(vs: seq<Value>): string
    requires forall i :: 0 <= i < |vs| ==> IsText(vs[i])
  {
    if vs == [] then "" else TextOf(vs[0]) + JoinTexts(vs[1..])
  }

  /** `props.children = children`: writing to a primitive throws (module
      code is strict); any object takes the property. A plain object gets
      its `children` field; the model's other objects (arrays, functions,
      elements, contexts, thenables) have no field map, so they come back
      as they were. */
  function SetChildren(props: Value, children: Value): (r: Result<Value, JsError>)
    ensures r.Success? <==> !IsPrimitive(props)
    ensures props.Obj? ==> r == Success(Obj(props.fields["children" := children]))
    ensures r.Success? && !props.Obj? ==> r.value == props
  {
    if props.Obj? then Success(Obj(props.fields["children" := children]))
    else if IsPrimitive(props) then Failure(TypeError("Cannot create property 'children'"))
    else Success(props)
  }

  /** Arrays and functions take `children` like plain objects do; only
      primitives throw. */
  lemma SetChildrenOnObjects(children: Value, items: seq<Value>, fid: nat)
    ensures SetChildren(Arr(items), children).Success?
    ensures SetChildren(Fun(fid), children).Success?
    ensures SetChildren(Num(1), children).Failure? && SetChildren(Null, children).Failure?
  {
  }

  /** The element `parseChildToJSX` makes of an instance (a container has
      `children` too and is read the same way, with `type` and `props`
      undefined). */
  function ElementOf(typ: Value, props: Value): Value {
    Elem(ElementSymbol, typ, Null, Null, props)
  }

  /** `parseChildToJSX(child)` for one host node: an instance or container
      becomes an element of its type with null key and ref, whose props get
      the converted children when there are any; a text instance becomes
      its text. */
  function ParseNode(h: Host, ghost rank: map<nat, nat>, id: nat): (r: Result<Value, JsError>)
    requires Ranked(h, rank) && id in h.nodes
    ensures h.nodes[id].TextInstance? ==> r == Success(h.nodes[id].text)
    ensures h.nodes[id].Instance? && r.Success? ==>
              var n := h.nodes[id];
              var cs := ParseList(h, rank, n.children, rank[id]);
              && cs.Success?
              && (cs.value == Null ==> r.value == ElementOf(n.typ, n.props))
              && (cs.value != Null && n.props.Obj? ==> r.value == ElementOf(n.typ, Obj(n.props.fields["children" := cs.value])))
              && (cs.value != Null ==> !IsPrimitive(n.props))
    ensures h.nodes[id].Instance? ==>
              (r.Failure? <==> ParseList(h, rank, h.nodes[id].children, rank[id]).Failure?
                               || (ParseList(h, rank, h.nodes[id].children, rank[id]).value != Null && IsPrimitive(h.nodes[id].props)))
    decreases rank[id], 2
  {
    match h.nodes[id]
    case TextInstance(text, _) => Success(text)
    case Instance(typ, children, _, props) =>
      var cs :- ParseList(h, rank, children, rank[id]);
      var props1 :- if cs != Null then SetChildren(props, cs) else Success(props);
      Success(ElementOf(typ, props1))
    case Container(children) =>
      var cs :- ParseList(h, rank, children, rank[id]);
      var props1 :- if cs != Null then SetChildren(Undefined, cs) else Success(Undefined);
      Success(ElementOf(Undefined, props1))
  }

  /** `child.map(parseChildToJSX)`, stopping at the first throw. */
  function ParseItems(h: Host, ghost rank: map<nat, nat>, ids: seq<nat>, ghost bound: nat): (r: Result<seq<Value>, JsError>)
    requires Ranked(h, rank)
    requires forall i :: 0 <= i < |ids| ==> ids[i] in h.nodes && rank[ids[i]] < bound
    ensures r.Success? ==> |r.value| == |ids|
    ensures r.Success? ==> forall i :: 0 <= i < |ids| ==> ParseNode(h, rank, ids[i]) == Success(r.value[i])
    ensures r.Failure? <==> exists i :: 0 <= i < |ids| && ParseNode(h, rank, ids[i]).Failure?
    decreases bound, 0, |ids|
  {
    if ids == [] then Success([])
    else
      var first :- ParseNode(h, rank, ids[0]);
      var rest :- ParseItems(h, rank, ids[1..], bound);
      Success([first] + rest)
  }

  /** `parseChildToJSX(child)` for an array of host nodes: `null` when
      empty, the one item's conversion for a singleton, otherwise the
      conversions, joined into one string when all are strings or
      numbers. */
  function ParseList(h: Host, ghost rank: map<nat, nat>, ids: seq<nat>, ghost bound: nat): (r: Result<Value, JsError>)
    requires Ranked(h, rank)
    requires forall i :: 0 <= i < |ids| ==> ids[i] in h.nodes && rank[ids[i]] < bound
    ensures |ids| == 0 ==> r == Success(Null)
    ensures |ids| == 1 ==> r == ParseNode(h, rank, ids[0])
    ensures |ids| >= 2 ==>
              var items := ParseItems(h, rank, ids, bound);
              && (r.Failure? <==> items.Failure?)
              && (r.Success? ==>
                    if forall i :: 0 <= i < |ids| ==> IsText(items.value[i])
                    then r.value == Str(JoinTexts(items.value))
                    else r.value == Arr(items.value))
    decreases bound, 1
  {
    if |ids| == 0 then Success(Null)
    else if |ids| == 1 then ParseNode(h, rank, ids[0])
    else
      var items :- ParseItems(h, rank, ids, bound);
      if forall i :: 0 <= i < |items| ==> IsText(items[i]) then Success(Str(JoinTexts(items)))
      else Success(Arr(items))
  }

  /** The largest rank plus one bounds every node's rank. */
  ghost function RankBound(rank: map<nat, nat>, ids: seq<nat>): (b: nat)
    requires forall i :: 0 <= i < |ids| ==> ids[i] in rank
    ensures forall i :: 0 <= i < |ids| ==> rank[ids[i]] < b
  {
    if ids == [] then 0
    else
      var b := RankBound(rank, ids[1..]);
      if rank[ids[0]] + 1 > b then rank[ids[0]] + 1 else b
  }

  /** `parseChildToJSX(child)`. */
  function ParseChildToJSX(h: Host, ghost rank: map<nat, nat>, c: Child): (r: Result<Value, JsError>)
    requires Ranked(h, rank)
    requires c.NodeChild? ==> c.id in h.nodes
    requires c.NodesChild? ==> forall i :: 0 <= i < |c.ids| ==> c.ids[i] in h.nodes
    ensures c.TextChild? ==> r == Success(Str(c.s))
    ensures c.NumberChild? ==> r == Success(Num(c.n))
  {
    match c
    case TextChild(s) => Success(Str(s))
    case NumberChild(n) => Success(Num(n))
    case NodeChild(id) => ParseNode(h, rank, id)
    case NodesChild(ids) => ParseList(h, rank, ids, RankBound(rank, ids))
  }

  /** `getChildrenAsJSX(container)`: the container's children converted;
      an array result is wrapped in a Fragment element. */
  function GetChildrenAsJSX(h: Host, ghost rank: map<nat, nat>, containerId: nat): (r: Result<Value, JsError>)
    requires Ranked(h, rank) && containerId in h.nodes && h.nodes[containerId].Container?
    ensures var cs := ParseList(h, rank, h.nodes[containerId].children, rank[containerId]);
            && (r.Failure? <==> cs.Failure?)
            && (r.Success? && cs.value.Arr? ==>
                  r.value == Elem(ElementSymbol, Symbol(FragmentSymbol), Null, Null, Obj(map["children" := cs.value])))
            && (r.Success? && !cs.value.Arr? ==> r.value == cs.value)
  {
    var cs :- ParseList(h, rank, h.nodes[containerId].children, rank[containerId]);
    if cs.Arr? then Success(Elem(ElementSymbol, Symbol(FragmentSymbol), Null, Null, Obj(map["children" := cs])))
    else Success(cs)
  }

  /** An array result holds the conversions of two or more nodes, at
      least one of them not a string or number: the Fragment wrapper of
      `getChildrenAsJSX` never wraps fewer than two children, and a list of
      texts always collapses into one string. */
  lemma ArrayResultHasTwoOrMore(h: Host, rank: map<nat, nat>, ids: seq<nat>, bound: nat)
    requires Ranked(h, rank)
    requires forall i :: 0 <= i < |ids| ==> ids[i] in h.nodes && rank[ids[i]] < bound
    requires |ids| != 1
    ensures var r := ParseList(h, rank, ids, bound);
            r.Success? && r.value.Arr? ==>
              |r.value.items| == |ids| >= 2 && exists i :: 0 <= i < |r.value.items| && !IsText(r.value.items[i])
  {
  }

  /** Two or more text instances collapse into the concatenation of their
      texts: `<div>a{'b'}</div>` reads back as `<div>ab</div>`. */
  lemma TextsJoin(h: Host, rank: map<nat, nat>, ids: seq<nat>, bound: nat)
    requires Ranked(h, rank)
    requires forall i :: 0 <= i < |ids| ==> ids[i] in h.nodes && rank[ids[i]] < bound
    requires |ids| >= 2
    requires forall i :: 0 <= i < |ids| ==> h.nodes[ids[i]].TextInstance? && IsText(h.nodes[ids[i]].text)
    ensures var texts := seq(|ids|, i requires 0 <= i < |ids| => h.nodes[ids[i]].text);
            ParseList(h, rank, ids, bound) == Success(Str(JoinTexts(texts)))
  {
    var texts := seq(|ids|, i requires 0 <= i < |ids| => h.nodes[ids[i]].text);
    var items := ParseItems(h, rank, ids, bound);
    forall i | 0 <= i < |ids|
      ensures ParseNode(h, rank, ids[i]) == Success(texts[i])
    {
    }
    assert items.Success?;
    assert items.value == texts;
  }
}
