/** Edits made from the bone window: a rotation slider rewrites one bone's
    transform in place, and in the two later generations the change is then
    propagated to the bone's descendants. The rotation itself comes from a
    float conversion outside the model, so it arrives as an input. */
module Editing {
  import opened Havok
  import opened Hooking
  import opened Propagation

  /** C#'s unchecked `(short)` cast: the value modulo 2^16, read back as a
      signed 16-bit number. */
  function ToShort(x: int): (r: int)
    ensures -0x8000 <= r < 0x8000
    ensures (x - r) % 0x1_0000 == 0
  {
    (x + 0x8000) % 0x1_0000 - 0x8000
  }

  /** The cast is the identity on values a `short` can hold, and those are
      the only values it returns. */
  lemma ToShortIdentity(x: int)
    ensures ToShort(x) == x <==> -0x8000 <= x < 0x8000
  {
  }

  /** The cast only depends on the value modulo 2^16: 65536 apart is the same bone. */
  lemma ToShortPeriodic(x: int)
    ensures ToShort(x + 0x1_0000) == ToShort(x)
  {
    assert (x + 0x1_0000 + 0x8000) % 0x1_0000 == (x + 0x8000) % 0x1_0000;
  }

  /** The four components of an `hkVector4`. */
  datatype Axis = X | Y | Z | W

  function Component<F>(v: Vector4<F>, axis: Axis): F
  {
    match axis
    case X => v.x
    case Y => v.y
    case Z => v.z
    case W => v.w
  }

  /** A slider bound to one component of the rotation writes that component
      and no other. */
  function WithComponent<F>(v: Vector4<F>, axis: Axis, value: F): (r: Vector4<F>)
    ensures Component(r, axis) == value
    ensures forall a: Axis :: a != axis ==> Component(r, a) == Component(v, a)
  {
    match axis
    case X => v.(x := value)
    case Y => v.(y := value)
    case Z => v.(z := value)
    case W => v.(w := value)
  }

  /** First generation: a slider over one rotation component of
      `ModelPose[selected]`. The transform is read, that component replaced,
      and the whole transform written back to the same slot; nothing is
      propagated. */
  method EditModelPoseRotation<F>(modelPose: HkaArray<Transform<F>>, selected: int, axis: Axis, value: F)
    requires modelPose.Valid() && 0 <= selected < modelPose.length
    modifies modelPose.data
    ensures modelPose.Valid()
    ensures modelPose.Contents() ==
              old(modelPose.Contents())[selected := old(modelPose.Contents()[selected]).(rotation := WithComponent(old(modelPose.Contents()[selected]).rotation, axis, value))]
  {
    var boneTransform := modelPose.At(selected);
    boneTransform := boneTransform.(rotation := WithComponent(boneTransform.rotation, axis, value));
    modelPose.Set(selected, boneTransform);
  }

  /** Later generations: a rotation slider. `LocalPose[selected]` is read,
      its rotation replaced by the converted slider angles, the transform
      written back, and `UpdateChildren` run from the selected bone (cast to
      `short`) with the model-space calculator hook. Translation and scale of
      the bone, every other local transform and the parent indices keep
      their values; the forwarded calculations are those of the walk below
      the bone. */
  method SliderEdit<F>(hook: Hook, localPose: HkaArray<Transform<F>>, parentIndices: HkaArray<int>,
                       selected: int, newRotation: Vector4<F>, ghost depth: seq<nat>)
    requires localPose.Valid() && 0 <= selected < localPose.length
    requires parentIndices.Valid() && parentIndices.length <= ShortMax
    requires Ranked(parentIndices.Contents(), depth)
    modifies localPose.data, hook
    ensures localPose.Valid() && parentIndices.Valid()
    ensures localPose.Contents() == old(localPose.Contents())[selected := old(localPose.Contents()[selected]).(rotation := newRotation)]
    ensures parentIndices.Contents() == old(parentIndices.Contents())
    ensures hook.originalCalls ==
              old(hook.originalCalls) + AsCalls(Walk(parentIndices.Contents(), depth, ToShort(selected)))
    ensures hook.enabled == old(hook.enabled)
  {
    var boneTransform := localPose.At(selected);
    boneTransform := boneTransform.(rotation := newRotation);
    localPose.Set(selected, boneTransform);
    UpdateChildren(hook, parentIndices, ToShort(selected), depth);
  }

  /** The "update" button: `UpdateChildren` from the typed-in index, cast to
      `short`. */
  method UpdateButton(hook: Hook, parentIndices: HkaArray<int>, update: i32, ghost depth: seq<nat>)
    requires parentIndices.Valid() && parentIndices.length <= ShortMax
    requires Ranked(parentIndices.Contents(), depth)
    modifies hook
    ensures hook.originalCalls ==
              old(hook.originalCalls) + AsCalls(Walk(parentIndices.Contents(), depth, ToShort(update)))
    ensures hook.enabled == old(hook.enabled)
  {
    UpdateChildren(hook, parentIndices, ToShort(update), depth);
  }
}
