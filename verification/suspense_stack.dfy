/** The stack of Suspense fibers being rendered
    (packages/react-reconciler/src/suspenseStack.ts): a JavaScript array
    used with `push`, `pop` and a read of its last item. */
module SuspenseStack {
  import opened Wrappers
  import opened Fibers

  /** `stack[stack.length - 1]`: the most recently pushed fiber not yet
      popped; `undefined` (here `None`) when the stack is empty. */
  function GetNearestSuspenseFiber(stack: seq<Fiber>): (r: Option<Fiber>)
    ensures r.None? <==> stack == []
    ensures r.Some? ==> r.value == stack[|stack| - 1]
  {
    if stack == [] then None else Some(stack[|stack| - 1])
  }

  /** `pushSuspenseFiber(fiber)`: appends and returns the new length. */
  function PushSuspenseFiber(stack: seq<Fiber>, f: Fiber): (r: (seq<Fiber>, nat))
    ensures r.0 == stack + [f] && r.1 == |stack| + 1
  {
    (stack + [f], |stack| + 1)
  }

  /** `popSuspenseFiber()`: removes and returns the top; `undefined` and no
      change on an empty stack. */
  function PopSuspenseFiber(stack: seq<Fiber>): (r: (seq<Fiber>, Option<Fiber>))
    ensures r.1 == GetNearestSuspenseFiber(stack)
    ensures stack == [] ==> r.0 == []
    ensures stack != [] ==> r.0 + [r.1.value] == stack
  {
    if stack == [] then ([], None) else (stack[..|stack| - 1], Some(stack[|stack| - 1]))
  }

  /** The stack is last-in first-out: after a push the nearest fiber is the
      one pushed, and popping it gives back the stack before the push. */
  lemma PushThenPop(stack: seq<Fiber>, f: Fiber)
    ensures var (s1, _) := PushSuspenseFiber(stack, f);
            GetNearestSuspenseFiber(s1) == Some(f) && PopSuspenseFiber(s1) == (stack, Some(f))
  {
    var (s1, _) := PushSuspenseFiber(stack, f);
    assert s1[..|s1| - 1] == stack;
  }
}
