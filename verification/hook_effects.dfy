/** The effect-list passes of packages/react-reconciler/src/commitWork.ts:
    `commitHookEffectList` walks the circular list of a function
    component's effects once, starting after `lastEffect`, and calls back on
    the effects whose tag holds every bit of `flags`; the three passes
    (unmount, destroy, create) differ in what the callback does.

    The user's `create` and `destroy` functions are outside the model: a
    call is recorded, and what `create()` returns is the parameter `run`. */
module HookEffects {
  import opened JsValues
  import opened FiberFlags
  import opened Fibers

  // ---------------------------------------------------------------- ring order

  /** The `k`-th effect after `start` in a ring of `n`: following `next`
      from `effects[start]` `k` times. */
  function At(start: nat, k: nat, n: nat): (i: nat)
    requires start < n && k <= n
    ensures i < n || (k == n && start == 0 && i == n)
  {
    if start + k < n then start + k else start + k - n
  }

  /** How many `next` steps lead from `start` to `i`: the inverse of `At`. */
  function Offset(start: nat, i: nat, n: nat): (k: nat)
    requires start < n && i < n
    ensures k < n && At(start, k, n) == i
  {
    if i >= start then i - start else i + n - start
  }

  /** `lastEffect.next`. */
  function First(ring: EffectRing): (i: nat)
    requires ValidRing(ring)
    ensures i < |ring.effects| && i == (ring.last + 1) % |ring.effects|
  {
    if ring.last + 1 < |ring.effects| then ring.last + 1 else 0
  }

  /** The positions visited in order, `lastEffect.next` first: each effect
      of the ring exactly once. */
  function RingOrder(ring: EffectRing): (o: seq<nat>)
    requires ValidRing(ring)
    ensures |o| == |ring.effects|
    ensures forall k :: 0 <= k < |o| ==> o[k] == At(First(ring), k, |o|) && o[k] < |o|
  {
    seq(|ring.effects|, k requires 0 <= k < |ring.effects| => At(First(ring), k, |ring.effects|))
  }

  /** No effect is visited twice, and every effect is visited: the order
      is a permutation of the ring, and it starts after `lastEffect`. */
  lemma RingOrderIsPermutation(ring: EffectRing)
    requires ValidRing(ring)
    ensures var o := RingOrder(ring);
            && o[0] == (ring.last + 1) % |ring.effects|
            && (forall j, k :: 0 <= j < k < |o| ==> o[j] != o[k])
            && (forall i :: 0 <= i < |o| ==> o[Offset(First(ring), i, |o|)] == i)
  {
  }

  // ---------------------------------------------------------------- the passes

  datatype Pass = UnmountPass | DestroyPass | CreatePass

  /** A call of a user function made by a pass. */
  datatype HookCall = CalledDestroy(destroy: Value) | CalledCreate(create: Value)

  /** `(effect.tag & flags) === flags`. */
  predicate Fires(e: Effect, flags: bv32) {
    e.tag & flags == flags
  }

  /** `effect.tag &= ~HookHasEffect`. */
  function ClearHasEffect(tag: bv32): bv32 {
    tag & !HookHasEffect
  }

  /** The callback of each pass on one effect: the effect afterwards and
      the user calls made. */
  function Callback(pass: Pass, run: Value -> Value, e: Effect): (r: (Effect, seq<HookCall>))
    ensures pass == DestroyPass ==> r.0 == e
    ensures pass != CreatePass ==> r.1 == (if IsFunction(e.destroy) then [CalledDestroy(e.destroy)] else [])
    ensures pass == UnmountPass ==> r.0 == e.(tag := ClearHasEffect(e.tag))
    ensures pass == CreatePass ==> r.1 == (if IsFunction(e.create) then [CalledCreate(e.create)] else [])
    ensures pass == CreatePass ==> r.0.tag == ClearHasEffect(e.tag) && r.0.create == e.create && r.0.deps == e.deps
    ensures pass == CreatePass ==> r.0.destroy == (if IsFunction(e.create) then run(e.create) else e.destroy)
  {
    match pass
    case UnmountPass =>
      (e.(tag := ClearHasEffect(e.tag)), if IsFunction(e.destroy) then [CalledDestroy(e.destroy)] else [])
    case DestroyPass =>
      (e, if IsFunction(e.destroy) then [CalledDestroy(e.destroy)] else [])
    case CreatePass =>
      (e.(tag := ClearHasEffect(e.tag), destroy := if IsFunction(e.create) then run(e.create) else e.destroy),
       if IsFunction(e.create) then [CalledCreate(e.create)] else [])
  }

  /** One effect after the pass: changed by the callback iff it fires. */
  function Treated(flags: bv32, pass: Pass, run: Value -> Value, e: Effect): Effect {
    if Fires(e, flags) then Callback(pass, run, e).0 else e
  }

  /** The calls made on the first `k` effects of the ring order. */
  function CallsUpTo(ring: EffectRing, flags: bv32, pass: Pass, run: Value -> Value, k: nat): seq<HookCall>
    requires ValidRing(ring) && k <= |ring.effects|
  {
    if k == 0 then []
    else
      var e := ring.effects[At(First(ring), k - 1, |ring.effects|)];
      CallsUpTo(ring, flags, pass, run, k - 1) + (if Fires(e, flags) then Callback(pass, run, e).1 else [])
  }

  /** The effects after the first `k` of the ring order are treated, and
      the others are as they were. */
  predicate TreatedUpTo(ring: EffectRing, flags: bv32, pass: Pass, run: Value -> Value, k: nat, es: seq<Effect>)
    requires ValidRing(ring)
  {
    && |es| == |ring.effects|
    && forall i :: 0 <= i < |es| ==>
         es[i] == (if Offset(First(ring), i, |es|) < k then Treated(flags, pass, run, ring.effects[i]) else ring.effects[i])
  }

  /** One turn of the loop: the callback on the `k`-th effect treats it,
      and leaves the others alone. */
  lemma TreatNext(ring: EffectRing, flags: bv32, pass: Pass, run: Value -> Value, k: nat, es: seq<Effect>)
    requires ValidRing(ring) && k < |ring.effects| && TreatedUpTo(ring, flags, pass, run, k, es)
    ensures var effect := At(First(ring), k, |es|);
            var e := es[effect];
            && e == ring.effects[effect]
            && TreatedUpTo(ring, flags, pass, run, k + 1,
                           if Fires(e, flags) then es[effect := Callback(pass, run, e).0] else es)
  {
    var n := |es|;
    var start := First(ring);
    var effect := At(start, k, n);
    assert Offset(start, effect, n) == k;
    var e := es[effect];
    var es2 := if Fires(e, flags) then es[effect := Callback(pass, run, e).0] else es;
    forall i | 0 <= i < n
      ensures es2[i] == (if Offset(start, i, n) < k + 1 then Treated(flags, pass, run, ring.effects[i]) else ring.effects[i])
    {
      if i != effect {
        assert Offset(start, i, n) != k;
      }
    }
  }

  lemma CallsNext(ring: EffectRing, flags: bv32, pass: Pass, run: Value -> Value, k: nat)
    requires ValidRing(ring) && k < |ring.effects|
    ensures var e := ring.effects[At(First(ring), k, |ring.effects|)];
            CallsUpTo(ring, flags, pass, run, k + 1)
            == CallsUpTo(ring, flags, pass, run, k) + (if Fires(e, flags) then Callback(pass, run, e).1 else [])
  {
  }

  /** Once the loop is back at `lastEffect.next`, every effect is treated. */
  lemma TreatedAll(ring: EffectRing, flags: bv32, pass: Pass, run: Value -> Value, es: seq<Effect>)
    requires ValidRing(ring) && TreatedUpTo(ring, flags, pass, run, |ring.effects|, es)
    ensures forall i :: 0 <= i < |es| ==> es[i] == Treated(flags, pass, run, ring.effects[i])
  {
    forall i | 0 <= i < |es|
      ensures es[i] == Treated(flags, pass, run, ring.effects[i])
    {
      assert Offset(First(ring), i, |es|) < |es|;
    }
  }

  /** `commitHookEffectList(flags, lastEffect, callback)` for one of the
      passes: a `do`/`while` loop from `lastEffect.next` that stops when it
      is back there. Every effect is treated exactly once, and the user
      calls come in ring order. */
  method CommitHookEffectList(flags: bv32, ring: EffectRing, pass: Pass, run: Value -> Value)
    returns (r: EffectRing, calls: seq<HookCall>)
    requires ValidRing(ring)
    ensures r.last == ring.last && |r.effects| == |ring.effects|
    ensures forall i :: 0 <= i < |r.effects| ==> r.effects[i] == Treated(flags, pass, run, ring.effects[i])
    ensures calls == CallsUpTo(ring, flags, pass, run, |ring.effects|)
  {
    var n := |ring.effects|;
    var start := First(ring);
    var es := ring.effects;
    calls := [];
    var effect := start;
    var first := true;
    ghost var k: nat := 0;
    while first || effect != start
      invariant k <= n && effect == At(start, k, n) && (first <==> k == 0)
      invariant TreatedUpTo(ring, flags, pass, run, k, es)
      invariant calls == CallsUpTo(ring, flags, pass, run, k)
      decreases n - k
    {
      first := false;
      TreatNext(ring, flags, pass, run, k, es);
      CallsNext(ring, flags, pass, run, k);
      var e := es[effect];
      if Fires(e, flags) {
        var (e2, made) := Callback(pass, run, e);
        es := es[effect := e2];
        calls := calls + made;
      }
      effect := if effect + 1 == n then 0 else effect + 1;
      k := k + 1;
    }
    TreatedAll(ring, flags, pass, run, es);
    r := EffectRing(es, ring.last);
  }

  /** `commitHookEffectListUnmount`, `commitHookEffectListDestroy` and
      `commitHookEffectListCreate` clear `HookHasEffect` as follows: the
      destroy pass leaves every effect as it was, and after an unmount or
      create pass whose `flags` include `HookHasEffect` no effect fires
      for those flags again. */
  lemma DestroyPassKeepsRing(flags: bv32, run: Value -> Value, e: Effect)
    ensures Treated(flags, DestroyPass, run, e) == e
  {
  }

  lemma ClearedTagMisses(tag: bv32, flags: bv32)
    requires flags & HookHasEffect != 0
    ensures ClearHasEffect(tag) & flags != flags
  {
  }

  lemma SecondPassFiresNothing(flags: bv32, pass: Pass, run: Value -> Value, e: Effect)
    requires pass != DestroyPass && flags & HookHasEffect != 0
    ensures !Fires(Treated(flags, pass, run, e), flags)
  {
    var t := Treated(flags, pass, run, e);
    if Fires(e, flags) {
      ClearedTagMisses(e.tag, flags);
    } else {
      assert t == e;
    }
  }
}
