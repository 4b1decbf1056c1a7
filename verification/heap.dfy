/** The scheduler's binary min-heap (packages/scheduler/src/Heap.ts).

    The heap's array is a sequence and the weight property (`startTime` or
    `deadline`) is a function `w` from element to integer; `compare(x, y)`
    is `w(nodes[x]) - w(nodes[y])`, so `compare(x, y) < 0` exactly when
    `nodes[x]` is lighter. Every element the heap holds went through
    `push`, which refuses falsy nodes, so every stored element is truthy;
    a falsy node is `None`.

    The source's `down` consults `nodes[rightChild]` even when the right
    child lies one past the end of the array, and reading a property of
    `undefined` throws. `SiftDownAsWritten` and `PopAsWritten` model that;
    `SiftDown` and `Pop`, which the scheduler model uses, compare only
    children that exist. */
module MinHeap {
  import opened Wrappers
  import opened JsValues

  /** The parent slot `(i - 1) >> 1` of slot `i`. */
  function Parent(i: nat): (p: nat)
    requires i > 0
    ensures p < i && (i == 2 * p + 1 || i == 2 * p + 2)
  {
    (i - 1) / 2
  }

  /** Slot `i` is no lighter than its parent. */
  predicate ParentOk<T>(s: seq<T>, w: T -> int, i: nat)
    requires 0 < i < |s|
  {
    w(s[Parent(i)]) <= w(s[i])
  }

  /** Heap order: no element is lighter than its parent. */
  predicate HeapOrdered<T>(s: seq<T>, w: T -> int) {
    forall i :: 0 < i < |s| ==> ParentOk(s, w, i)
  }

  /** The root of an ordered heap is a lightest element. */
  lemma {:induction false} HeapRootIsMin<T>(s: seq<T>, w: T -> int, i: nat)
    requires HeapOrdered(s, w) && i < |s|
    ensures w(s[0]) <= w(s[i])
    decreases i
  {
    if i > 0 {
      assert ParentOk(s, w, i);
      HeapRootIsMin(s, w, Parent(i));
    }
  }

  lemma RootIsLightest<T>(s: seq<T>, w: T -> int)
    requires |s| > 0
    ensures HeapOrdered(s, w) ==> forall i :: 0 <= i < |s| ==> w(s[0]) <= w(s[i])
  {
    if HeapOrdered(s, w) {
      forall i | 0 <= i < |s| ensures w(s[0]) <= w(s[i]) {
        HeapRootIsMin(s, w, i);
      }
    }
  }

  function Swap<T>(s: seq<T>, x: nat, y: nat): (r: seq<T>)
    requires x < |s| && y < |s|
    ensures |r| == |s| && r[x] == s[y] && r[y] == s[x]
    ensures forall i :: 0 <= i < |s| && i != x && i != y ==> r[i] == s[i]
    ensures multiset(r) == multiset(s)
  {
    s[x := s[y]][y := s[x]]
  }

  /** `exchange(x, y)`: swaps the two slots and returns `y`; equal indices
      leave the array as it is. */
  function Exchange<T>(s: seq<T>, x: nat, y: nat): (r: (seq<T>, nat))
    requires x < |s| && y < |s|
    ensures r.1 == y
    ensures x == y ==> r.0 == s
    ensures |r.0| == |s|
    ensures x != y ==> r.0[x] == s[y] && r.0[y] == s[x]
    ensures forall i :: 0 <= i < |s| && i != x && i != y ==> r.0[i] == s[i]
  {
    if x == y then (s, y) else (Swap(s, x, y), y)
  }

  // ---------------------------------------------------------------- up

  /** Sift-up invariant: heap order holds everywhere except between `k`
      and its parent, and `k`'s parent is no heavier than `k`'s children. */
  ghost predicate UpInv<T>(s: seq<T>, w: T -> int, k: nat) {
    && (forall i :: 0 < i < |s| && i != k ==> ParentOk(s, w, i))
    && (0 < k < |s| ==> forall c :: 0 < c < |s| && Parent(c) == k ==> w(s[Parent(k)]) <= w(s[c]))
  }

  lemma SwapUpKeepsInv<T>(s: seq<T>, w: T -> int, k: nat)
    requires 0 < k < |s| && w(s[k]) < w(s[Parent(k)])
    ensures UpInv(s, w, k) ==> UpInv(Swap(s, k, Parent(k)), w, Parent(k))
  {
    var p := Parent(k);
    var r := Swap(s, k, p);
    if UpInv(s, w, k) {
      forall i | 0 < i < |r| && i != p
        ensures ParentOk(r, w, i)
      {
        if i == k {
          assert r[Parent(i)] == s[k] && r[i] == s[p];
        } else if Parent(i) == k {
          assert r[Parent(i)] == s[p] && r[i] == s[i];
        } else if Parent(i) == p {
          assert ParentOk(s, w, i);
          assert r[Parent(i)] == s[k] && r[i] == s[i];
        } else {
          assert ParentOk(s, w, i);
          assert r[Parent(i)] == s[Parent(i)] && r[i] == s[i];
        }
      }
      if 0 < p {
        assert ParentOk(s, w, p);
        forall c | 0 < c < |r| && Parent(c) == p
          ensures w(r[Parent(p)]) <= w(r[c])
        {
          assert r[Parent(p)] == s[Parent(p)];
          if c == k {
            assert r[c] == s[p];
          } else {
            assert ParentOk(s, w, c);
            assert r[c] == s[c];
          }
        }
      }
    }
  }

  /** Appending to an ordered heap breaks order at most at the new slot. */
  lemma AppendKeepsUpInv<T>(s: seq<T>, w: T -> int, x: T)
    ensures HeapOrdered(s, w) ==> UpInv(s + [x], w, |s|)
  {
    var t := s + [x];
    if HeapOrdered(s, w) {
      forall i | 0 < i < |t| && i != |s|
        ensures ParentOk(t, w, i)
      {
        assert ParentOk(s, w, i);
      }
    }
  }

  /** `up()` from slot `k`: swap the element with its parent while it is
      strictly lighter. */
  function SiftUp<T>(s: seq<T>, w: T -> int, k: nat): (r: seq<T>)
    requires k < |s|
    ensures |r| == |s| && multiset(r) == multiset(s)
    ensures UpInv(s, w, k) ==> HeapOrdered(r, w)
    decreases k
  {
    if k == 0 then s
    else
      var p := Parent(k);
      if w(s[k]) - w(s[p]) < 0 then
        SwapUpKeepsInv(s, w, k);
        SiftUp(Swap(s, k, p), w, p)
      else s
  }

  /** `push(node)`: a truthy node is appended and sifted up; a falsy one is
      ignored. Either way the node itself is returned. */
  function Push<T>(s: seq<T>, w: T -> int, node: Option<T>): (r: (seq<T>, Option<T>))
    ensures r.1 == node
    ensures node.None? ==> r.0 == s
    ensures node.Some? ==> multiset(r.0) == multiset(s) + multiset{node.value}
    ensures |r.0| == |s| + (if node.Some? then 1 else 0)
    ensures HeapOrdered(s, w) ==> HeapOrdered(r.0, w)
  {
    match node
    case None => (s, node)
    case Some(x) =>
      var t := s + [x];
      assert multiset(t) == multiset(s) + multiset{x};
      AppendKeepsUpInv(s, w, x);
      (SiftUp(t, w, |s|), node)
  }

  /** `peek()`: the root, or null when the heap is empty. */
  function Peek<T>(s: seq<T>, w: T -> int): (r: Option<T>)
    ensures r.None? <==> s == []
    ensures r.Some? ==> r.value == s[0]
    ensures r.Some? && HeapOrdered(s, w) ==> forall i :: 0 <= i < |s| ==> w(r.value) <= w(s[i])
  {
    if s == [] then None
    else
      RootIsLightest(s, w);
      Some(s[0])
  }

  // ---------------------------------------------------------------- getSmallest

  /** `compare(x, y)`: reading the weight of a missing slot reads a property
      of `undefined`, which throws. */
  function Compare<T>(s: seq<T>, w: T -> int, x: nat, y: nat): (r: Result<int, JsError>)
    ensures r.Failure? <==> x >= |s| || y >= |s|
    ensures r.Success? ==> (r.value < 0 <==> w(s[x]) < w(s[y]))
  {
    if x >= |s| || y >= |s| then Failure(TypeError("Cannot read properties of undefined"))
    else Success(w(s[x]) - w(s[y]))
  }

  /** The `forEach` of `getSmallest` from position `j` on, with `smallest`
      the running answer, which is always a real slot: the first comparison
      is of `indexes[0]` with itself. */
  function SmallestFromAsWritten<T>(s: seq<T>, w: T -> int, indexes: seq<nat>, j: nat, smallest: nat): (r: Result<nat, JsError>)
    requires j <= |indexes| && smallest < |s|
    ensures r.Failure? <==> exists k :: j <= k < |indexes| && indexes[k] >= |s|
    decreases |indexes| - j
  {
    if j == |indexes| then Success(smallest)
    else
      var c :- Compare(s, w, indexes[j], smallest);
      SmallestFromAsWritten(s, w, indexes, j + 1, if c < 0 then indexes[j] else smallest)
  }

  /** The same walk, comparing only slots that exist; `-1` stands for "no
      answer yet". */
  function SmallestFrom<T>(s: seq<T>, w: T -> int, indexes: seq<nat>, j: nat, smallest: int): (r: int)
    requires j <= |indexes|
    requires smallest == -1 || (0 <= smallest < |s| && smallest in indexes)
    ensures r == -1 <==> smallest == -1 && forall k :: j <= k < |indexes| ==> indexes[k] >= |s|
    ensures r != -1 ==> 0 <= r < |s| && r in indexes
    ensures r != -1 && smallest != -1 ==> w(s[r]) <= w(s[smallest])
    ensures r != -1 && smallest != -1 && r != smallest ==> w(s[r]) < w(s[smallest])
    ensures r != -1 ==> forall k :: j <= k < |indexes| && indexes[k] < |s| ==> w(s[r]) <= w(s[indexes[k]])
    decreases |indexes| - j
  {
    if j == |indexes| then smallest
    else
      var i := indexes[j];
      SmallestFrom(s, w, indexes, j + 1,
        if i < |s| && (smallest == -1 || w(s[i]) - w(s[smallest]) < 0) then i else smallest)
  }

  /** `getSmallest(indexes)`, restricted to slots that exist: the index of a
      lightest existing slot among `indexes` (the first listed one wins a
      tie against any later one), or `-1` when none of them exists. */
  function GetSmallest<T>(s: seq<T>, w: T -> int, indexes: seq<nat>): (r: int)
    ensures r == -1 <==> forall k :: 0 <= k < |indexes| ==> indexes[k] >= |s|
    ensures r != -1 ==> 0 <= r < |s| && r in indexes
    ensures r != -1 ==> forall k :: 0 <= k < |indexes| && indexes[k] < |s| ==> w(s[r]) <= w(s[indexes[k]])
    ensures |indexes| > 0 && indexes[0] < |s| && r != indexes[0] ==> w(s[r]) < w(s[indexes[0]])
  {
    SmallestFrom(s, w, indexes, 0, -1)
  }

  lemma {:induction false} SmallestFromAgrees<T>(s: seq<T>, w: T -> int, indexes: seq<nat>, j: nat, smallest: nat)
    requires j <= |indexes| && smallest < |s| && smallest in indexes
    requires forall k :: 0 <= k < |indexes| ==> indexes[k] < |s|
    ensures SmallestFromAsWritten(s, w, indexes, j, smallest) == Success(SmallestFrom(s, w, indexes, j, smallest))
    decreases |indexes| - j
  {
    if j < |indexes| {
      var i := indexes[j];
      SmallestFromAgrees(s, w, indexes, j + 1, if w(s[i]) - w(s[smallest]) < 0 then i else smallest);
    }
  }

  /** `getSmallest(indexes)` as written: it throws exactly when one of the
      indexes names a missing slot, and otherwise agrees with
      `GetSmallest`. */
  function GetSmallestAsWritten<T>(s: seq<T>, w: T -> int, indexes: seq<nat>): (r: Result<int, JsError>)
    ensures r.Failure? <==> exists k :: 0 <= k < |indexes| && indexes[k] >= |s|
    ensures r.Success? ==> r.value == GetSmallest(s, w, indexes)
  {
    if |indexes| == 0 then Success(-1)
    else if indexes[0] >= |s| then Failure(TypeError("Cannot read properties of undefined"))
    else
      match SmallestFromAsWritten(s, w, indexes, 0, indexes[0])
      case Success(v) =>
        SmallestFromAgrees(s, w, indexes, 0, indexes[0]);
        Success(v as int)
      case Failure(e) => Failure(e)
  }

  // ---------------------------------------------------------------- down

  /** Sift-down invariant: heap order holds everywhere except between `p`
      and its children, and `p`'s parent is no heavier than `p`'s
      children. */
  ghost predicate DownInv<T>(s: seq<T>, w: T -> int, p: nat) {
    && (forall i :: 0 < i < |s| && Parent(i) != p ==> ParentOk(s, w, i))
    && (0 < p < |s| ==> forall c :: 0 < c < |s| && Parent(c) == p ==> w(s[Parent(p)]) <= w(s[c]))
  }

  lemma SwapDownKeepsInv<T>(s: seq<T>, w: T -> int, p: nat, m: nat)
    requires p < m < |s| && Parent(m) == p && w(s[m]) <= w(s[p])
    requires forall c :: 0 < c < |s| && Parent(c) == p ==> w(s[m]) <= w(s[c])
    ensures DownInv(s, w, p) ==> DownInv(Swap(s, p, m), w, m)
  {
    var r := Swap(s, p, m);
    if DownInv(s, w, p) {
      forall i | 0 < i < |r| && Parent(i) != m
        ensures ParentOk(r, w, i)
      {
        if i == m {
          assert r[Parent(i)] == s[m] && r[i] == s[p];
        } else if i == p {
          assert r[Parent(i)] == s[Parent(p)] && r[i] == s[m];
        } else if Parent(i) == p {
          assert r[Parent(i)] == s[m] && r[i] == s[i];
        } else {
          assert ParentOk(s, w, i);
          assert r[Parent(i)] == s[Parent(i)] && r[i] == s[i];
        }
      }
      forall c | 0 < c < |r| && Parent(c) == m
        ensures w(r[Parent(m)]) <= w(r[c])
      {
        assert ParentOk(s, w, c);
        assert r[Parent(m)] == s[m] && r[c] == s[c];
      }
    }
  }

  /** The slot `down()` moves the element at `p` to: the lightest of `p`
      and its existing children, `p` itself winning ties. */
  function DownTarget<T>(s: seq<T>, w: T -> int, p: nat): (m: nat)
    requires 2 * p + 1 < |s|
    ensures m == p || (p < m < |s| && Parent(m) == p && w(s[m]) < w(s[p]))
    ensures forall c :: 0 < c < |s| && Parent(c) == p ==> w(s[m]) <= w(s[c])
    ensures w(s[m]) <= w(s[p])
  {
    var indexes := [p, 2 * p + 1, 2 * p + 2];
    var m := GetSmallest(s, w, indexes);
    assert indexes[0] == p && indexes[1] == 2 * p + 1 && indexes[2] == 2 * p + 2;
    m
  }

  /** `down()` from slot `p`, comparing only children that exist. */
  function SiftDown<T>(s: seq<T>, w: T -> int, p: nat): (r: seq<T>)
    requires p < |s|
    ensures |r| == |s| && multiset(r) == multiset(s)
    ensures DownInv(s, w, p) ==> HeapOrdered(r, w)
    decreases |s| - p
  {
    if 2 * p + 1 >= |s| then
      s
    else
      var m := DownTarget(s, w, p);
      if m == p then s
      else
        SwapDownKeepsInv(s, w, p, m);
        SiftDown(Swap(s, p, m), w, m)
  }

  /** `down()` as written: `getSmallest([parent, leftChild, rightChild])`
      throws when `rightChild` is one past the end. When it does not throw,
      it computes what `SiftDown` computes. */
  function SiftDownAsWritten<T>(s: seq<T>, w: T -> int, p: nat): (r: Result<seq<T>, JsError>)
    requires p < |s|
    ensures r.Success? ==> r.value == SiftDown(s, w, p)
    decreases |s| - p
  {
    var left := 2 * p + 1;
    var right := left + 1;
    if left >= |s| then Success(s)
    else
      var smallest :- GetSmallestAsWritten(s, w, [p, left, right]);
      assert smallest == DownTarget(s, w, p);
      if smallest == p then Success(s)
      else
        var (t, next) := Exchange(s, p, if smallest == left then left else right);
        SiftDownAsWritten(t, w, next)
  }

  /** `down()` as written throws when the first slot it examines has a
      left child but no right child. */
  lemma SiftDownAsWrittenThrows<T>(s: seq<T>, w: T -> int, p: nat)
    requires p < |s| && 2 * p + 2 == |s|
    ensures SiftDownAsWritten(s, w, p).Failure?
  {
    var indexes := [p, 2 * p + 1, 2 * p + 2];
    assert indexes[2] >= |s|;
    assert GetSmallestAsWritten(s, w, indexes).Failure?;
  }

  // ---------------------------------------------------------------- pop

  lemma LastToRootKeepsDownInv<T>(s: seq<T>, w: T -> int)
    requires |s| >= 2
    ensures HeapOrdered(s, w) ==> DownInv(Swap(s, 0, |s| - 1)[..|s| - 1], w, 0)
  {
    var rest := Swap(s, 0, |s| - 1)[..|s| - 1];
    if HeapOrdered(s, w) {
      forall i | 0 < i < |rest| && Parent(i) != 0
        ensures ParentOk(rest, w, i)
      {
        assert ParentOk(s, w, i);
        assert rest[i] == s[i] && rest[Parent(i)] == s[Parent(i)];
      }
    }
  }

  /** Moves the last element to the root and drops the old root, which is
      returned; the first step of `pop()` on two or more elements. */
  function DetachRoot<T>(s: seq<T>, w: T -> int): (r: (seq<T>, T))
    requires |s| >= 2
    ensures |r.0| == |s| - 1 && r.1 == s[0]
    ensures multiset(r.0) + multiset{s[0]} == multiset(s)
    ensures HeapOrdered(s, w) ==> DownInv(r.0, w, 0)
  {
    var t := Exchange(s, 0, |s| - 1).0;
    var rest := t[..|t| - 1];
    assert t == rest + [t[|t| - 1]];
    assert multiset(t) == multiset(s);
    LastToRootKeepsDownInv(s, w);
    (rest, t[|t| - 1])
  }

  /** `pop()`: removes and returns a lightest element, or returns null on
      an empty heap. */
  function Pop<T>(s: seq<T>, w: T -> int): (r: (seq<T>, Option<T>))
    ensures s == [] ==> r == ([], None)
    ensures |s| == 1 ==> r == ([], Some(s[0]))
    ensures s != [] ==> r.1 == Some(s[0]) && |r.0| == |s| - 1
    ensures s != [] ==> multiset(r.0) + multiset{s[0]} == multiset(s)
    ensures HeapOrdered(s, w) ==> HeapOrdered(r.0, w)
    ensures HeapOrdered(s, w) && r.1.Some? ==> forall i :: 0 <= i < |s| ==> w(r.1.value) <= w(s[i])
  {
    if |s| == 0 then ([], None)
    else
    RootIsLightest(s, w);
    if |s| == 1 then ([], Some(s[0]))
    else
      var (rest, top) := DetachRoot(s, w);
      (SiftDown(rest, w, 0), Some(top))
  }

  /** `pop()` as written, with the `down()` that may throw. */
  function PopAsWritten<T>(s: seq<T>, w: T -> int): (r: Result<(seq<T>, Option<T>), JsError>)
    ensures r.Success? ==> r.value == Pop(s, w)
    ensures |s| <= 2 ==> r.Success?
  {
    if |s| <= 1 then Success(([], if |s| == 1 then Some(s[0]) else None))
    else
      var (rest, top) := DetachRoot(s, w);
      var d :- SiftDownAsWritten(rest, w, 0);
      Success((d, Some(top)))
  }

  /** Popping a heap of three elements throws: after the root is detached
      two elements remain, and the root's right child is looked up one
      past the end. */
  lemma PopOfThreeThrows<T>(s: seq<T>, w: T -> int)
    requires |s| == 3
    ensures PopAsWritten(s, w).Failure?
  {
    var (rest, _) := DetachRoot(s, w);
    SiftDownAsWrittenThrows(rest, w, 0);
  }
}
