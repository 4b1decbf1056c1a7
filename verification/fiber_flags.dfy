/** Fiber side-effect flags (packages/react-reconciler/src/fiberFlags.ts)
    and effect-hook tags (packages/react-reconciler/src/hookEffectTag.ts).

    JavaScript applies bitwise operators to the 32-bit two's-complement
    image of a number, so flags are `bv32`. `Ref`, `Visibility`,
    `ShouldCapture` and `DidCapture` are used by other files but are not
    defined in fiberFlags.ts; they are given fresh bits here, as are the two
    masks commitWork.ts imports but fiberFlags.ts does not define. */
module FiberFlags {

  type Flags = bv32

  const NoFlags: Flags := 0
  const Placement: Flags := 1
  const Update: Flags := 2
  const ChildDeletion: Flags := 4
  const PassiveEffect: Flags := 8

  /** Bits not defined in fiberFlags.ts. */
  const Ref: Flags := 16
  const Visibility: Flags := 32
  const ShouldCapture: Flags := 64
  const DidCapture: Flags := 128

  const MutationMask: Flags := Placement | Update | ChildDeletion
  const PassiveMask: Flags := PassiveEffect | ChildDeletion

  /** `EffectMaskDuringMutation`: every flag the mutation pass handles
      other than `PassiveEffect`, which commitWork.ts adds itself. */
  const EffectMaskDuringMutation: Flags := MutationMask | Ref | Visibility
  /** `EffectMask.Layout`: the layout pass only binds refs. */
  const LayoutMask: Flags := Ref

  /** `x` has exactly one bit set. */
  predicate IsSingleBit(x: bv32) {
    x != 0 && x & (x - 1) == 0
  }

  /** `(flags & mask) !== NoFlags`. */
  predicate HasAny(flags: Flags, mask: Flags) {
    flags & mask != NoFlags
  }

  /** Every bit of `sub` is set in `flags`. */
  predicate Contains(flags: Flags, sub: Flags) {
    flags & sub == sub
  }

  /** The flags are distinct single bits and `NoFlags` is zero. */
  lemma FlagBitsAreDistinct()
    ensures NoFlags == 0
    ensures IsSingleBit(Placement) && IsSingleBit(Update) && IsSingleBit(ChildDeletion) && IsSingleBit(PassiveEffect)
    ensures IsSingleBit(Ref) && IsSingleBit(Visibility) && IsSingleBit(ShouldCapture) && IsSingleBit(DidCapture)
    ensures Placement & Update == 0 && Placement & ChildDeletion == 0 && Placement & PassiveEffect == 0
    ensures Update & ChildDeletion == 0 && Update & PassiveEffect == 0 && ChildDeletion & PassiveEffect == 0
    ensures (Placement | Update | ChildDeletion | PassiveEffect) & (Ref | Visibility | ShouldCapture | DidCapture) == 0
    ensures Ref & Visibility == 0 && Ref & ShouldCapture == 0 && Ref & DidCapture == 0
    ensures Visibility & ShouldCapture == 0 && Visibility & DidCapture == 0 && ShouldCapture & DidCapture == 0
  {
  }

  /** The masks contain exactly the flags they are built from:
      PassiveEffect is only in the passive mask, ChildDeletion in both. */
  lemma MaskMembership()
    ensures forall f: Flags :: HasAny(f, MutationMask) <==> HasAny(f, Placement) || HasAny(f, Update) || HasAny(f, ChildDeletion)
    ensures forall f: Flags :: HasAny(f, PassiveMask) <==> HasAny(f, PassiveEffect) || HasAny(f, ChildDeletion)
    ensures !HasAny(PassiveEffect, MutationMask) && HasAny(PassiveEffect, PassiveMask)
    ensures HasAny(ChildDeletion, MutationMask) && HasAny(ChildDeletion, PassiveMask)
    ensures !HasAny(Placement, PassiveMask) && !HasAny(Update, PassiveMask)
  {
  }

  // ---------------------------------------------------------------- hook effect tags

  /** `Passive`: the effect belongs to `useEffect`. */
  const HookPassive: bv32 := 2
  /** `HookHasEffect`: the effect must fire in this commit. */
  const HookHasEffect: bv32 := 1
}
