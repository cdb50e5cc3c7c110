/** The replacement functions ("detours") the plugins install in place of
    the host's skeleton functions, and the state two of them capture. A
    detour either answers from the pose it is handed, rewrites arguments
    before forwarding to the original, or records its arguments. */
module Detours {
  import opened Havok
  import opened Hooking

  /** Number of distinct 64-bit addresses; pointer sums wrap modulo this. */
  const AddressSpace: int := 0x1_0000_0000_0000_0000

  /** `ModelPose.Data + boneIdx` on a `hkQsTransform*`: the index is scaled
      by the 48-byte element size and the sum wraps in 64 bits. This is the
      whole of `GetBoneModelSpaceDetour` (both generations) and of
      `CalculateBoneModelSpaceDetour`: no write, no call to the original. */
  function SlotAddress(data: Addr, boneIdx: i32): Addr
  {
    (data + TransformSize * boneIdx) % AddressSpace
  }

  /** The bone-model-space detours, reading only the model-pose data pointer. */
  function CalculateBoneModelSpaceDetour(pose: PoseHeader, boneIdx: i32): (r: Addr)
    ensures r == SlotAddress(pose.modelPoseData, boneIdx)
    ensures 0 <= boneIdx && pose.modelPoseData + TransformSize * (boneIdx + 1) <= AddressSpace ==>
              pose.modelPoseData <= r && r + TransformSize <= AddressSpace &&
              r - pose.modelPoseData == TransformSize * boneIdx
  {
    SlotAddress(pose.modelPoseData, boneIdx)
  }

  /** For an array of `n` transforms lying wholly in the address space, the
      detour's answer for an index in range is the address of that element:
      48 bytes per step from the buffer start, inside the buffer. */
  lemma SlotAddressInBuffer(data: Addr, n: nat, boneIdx: i32)
    requires data + TransformSize * n <= AddressSpace
    requires 0 <= boneIdx < n
    ensures SlotAddress(data, boneIdx) == data + TransformSize * boneIdx
    ensures data <= SlotAddress(data, boneIdx)
    ensures SlotAddress(data, boneIdx) + TransformSize <= data + TransformSize * n
  {
    assert TransformSize * boneIdx + TransformSize <= TransformSize * n;
  }

  /** Consecutive indices are one `hkQsTransform` apart, wrapping included. */
  lemma SlotAddressStride(data: Addr, boneIdx: i32)
    requires boneIdx + 1 < 0x8000_0000
    ensures SlotAddress(data, boneIdx + 1) == (SlotAddress(data, boneIdx) + TransformSize) % AddressSpace
  {
    var s := data + TransformSize * boneIdx;
    assert data + TransformSize * (boneIdx + 1) == s + TransformSize;
    ModAddLeft(s, TransformSize, AddressSpace);
  }

  lemma ModAddLeft(a: int, b: int, m: int)
    requires m > 0
    ensures (a + b) % m == (a % m + b) % m
  {
    var q := a / m;
    assert a == q * m + a % m;
    assert a + b == q * m + (a % m + b);
    ModShift(a % m + b, q, m);
  }

  lemma ModShift(x: int, q: int, m: int)
    requires m > 0
    ensures (q * m + x) % m == x % m
  {
    var y := q * m + x;
    assert y == (y / m) * m + y % m;
    assert x == (x / m) * m + x % m;
    assert (y / m - q - x / m) * m == x % m - y % m;
    MultipleBelowModulus(y / m - q - x / m, m);
  }

  /** The only multiple of `m` strictly between `-m` and `m` is zero. */
  lemma MultipleBelowModulus(k: int, m: int)
    requires m > 0 && -m < k * m < m
    ensures k == 0
  {
    if k > 0 {
      MulAtLeast(k, m);
    } else if k < 0 {
      MulAtLeast(-k, m);
    }
  }

  lemma MulAtLeast(a: int, b: int)
    requires a >= 1 && b > 0
    ensures a * b >= b
  {
    assert a * b == (a - 1) * b + b;
  }

  /** Different 32-bit indices never share a slot address: the 48-byte
      scaling of the whole `int` range stays below the 64-bit wrap. */
  lemma SlotAddressInjective(data: Addr, i: i32, j: i32)
    requires SlotAddress(data, i) == SlotAddress(data, j)
    ensures i == j
  {
    var a, b := data + TransformSize * i, data + TransformSize * j;
    var qa, qb := a / AddressSpace, b / AddressSpace;
    assert a == qa * AddressSpace + a % AddressSpace;
    assert b == qb * AddressSpace + b % AddressSpace;
    assert a - b == TransformSize * (i - j) == (qa - qb) * AddressSpace;
    assert -AddressSpace < TransformSize * (i - j) < AddressSpace;
    MultipleBelowModulus(qa - qb, AddressSpace);
  }

  /** `SetToReferencePoseDetour` / `GetSkeletonDetour`: the skeleton pointer
      the pose already holds, without running the original's sync. */
  function SkeletonPointerDetour(pose: PoseHeader): (r: Addr)
    ensures r == pose.skeletonPointer
  {
    pose.skeletonPointer
  }

  /** First-generation `SetBoneXSpaceDetour`: the bone id widened to `ulong`;
      nothing is recorded and nothing forwarded. */
  function SetBoneXSpaceDetour(thisRenderSkeleton: Addr, boneId: u16, transform: Addr,
                               enableSecondary: bool, enablePropagate: bool): (r: u64)
    ensures r == boneId && r < 0x1_0000
  {
    boneId
  }

  /** The argument rewrite of `HkaBlendJobBuildDetour`: everything is passed
      through except the two counts, which become zero. */
  function ZeroCounts(args: BlendJobArgs): (r: BlendJobArgs)
    ensures r.numBones == 0 && r.numFloats == 0
    ensures r.job == args.job && r.skel == args.skel && r.bonesOut == args.bonesOut
    ensures r.floatsOut == args.floatsOut && r.convertToModel == args.convertToModel
  {
    args.(numBones := 0, numFloats := 0)
  }

  /** Rewriting twice is rewriting once. */
  lemma ZeroCountsIdempotent(args: BlendJobArgs)
    ensures ZeroCounts(ZeroCounts(args)) == ZeroCounts(args)
  {
  }

  /** Two calls reach the original identically exactly when they agree on
      the five forwarded arguments: the counts are the only thing dropped. */
  lemma ZeroCountsEqualIff(a: BlendJobArgs, b: BlendJobArgs)
    ensures ZeroCounts(a) == ZeroCounts(b) <==>
              a.job == b.job && a.skel == b.skel && a.bonesOut == b.bonesOut &&
              a.floatsOut == b.floatsOut && a.convertToModel == b.convertToModel
  {
    if ZeroCounts(a) == ZeroCounts(b) {
      assert ZeroCounts(a).job == ZeroCounts(b).job;
    }
  }

  /** `HkaBlendJobBuildDetour`: one forwarded call, with the rewritten
      arguments, whose result is returned unchanged. */
  method HkaBlendJobBuildDetour(hook: Hook, args: BlendJobArgs) returns (r: Addr)
    modifies hook
    ensures r == hook.original(HkaBlendJobBuild(ZeroCounts(args)))
    ensures hook.originalCalls == old(hook.originalCalls) + [HkaBlendJobBuild(ZeroCounts(args))]
    ensures hook.enabled == old(hook.enabled)
  {
    r := hook.Original(HkaBlendJobBuild(ZeroCounts(args)));
  }

  // ---------------------------------------------------------------------
  // Captured bone writes

  /** The field-by-field copy of `WriteToGameTransform`: translation x, y, z,
      rotation x, y, z, w and scale x, y, z come from `source`; the target's
      translation w and scale w are kept. */
  function CopyInto<F>(target: Transform<F>, source: Transform<F>): (r: Transform<F>)
    ensures r.rotation == source.rotation
    ensures r.translation == Vector4(source.translation.x, source.translation.y, source.translation.z, target.translation.w)
    ensures r.scale == Vector4(source.scale.x, source.scale.y, source.scale.z, target.scale.w)
  {
    Transform(Vector4(source.translation.x, source.translation.y, source.translation.z, target.translation.w),
              source.rotation,
              Vector4(source.scale.x, source.scale.y, source.scale.z, target.scale.w))
  }

  /** The target is left as it was exactly when it already agrees with the
      source on the ten copied components. */
  lemma CopyIntoFixpoint<F>(target: Transform<F>, source: Transform<F>)
    ensures CopyInto(target, source) == target <==>
              && target.rotation == source.rotation
              && target.translation.x == source.translation.x
              && target.translation.y == source.translation.y
              && target.translation.z == source.translation.z
              && target.scale.x == source.scale.x
              && target.scale.y == source.scale.y
              && target.scale.z == source.scale.z
  {
    if CopyInto(target, source) == target {
      assert CopyInto(target, source).translation == target.translation;
      assert CopyInto(target, source).scale == target.scale;
    }
  }

  /** Writing twice leaves what the second write wrote; writing the same
      transform twice is writing it once. */
  lemma CopyIntoLastWins<F>(target: Transform<F>, first: Transform<F>, second: Transform<F>)
    ensures CopyInto(CopyInto(target, first), second) == CopyInto(target, second)
    ensures CopyInto(CopyInto(target, first), first) == CopyInto(target, first)
  {
  }

  /** Host memory holding transforms, by address. The null page is never mapped. */
  class TransformMemory<F> {
    var slots: map<Addr, Transform<F>>

    ghost predicate Valid()
      reads this
    {
      Null !in slots
    }

    constructor (initial: map<Addr, Transform<F>>)
      requires Null !in initial
      ensures Valid() && slots == initial
    {
      slots := initial;
    }
  }

  /** The plugin state written by `SetBoneModelSpaceDetour`: the last
      partial-skeleton address and the last transform pointer passed in. */
  class BoneWriteCapture {
    var transformSpace: Addr
    var lastSkeletonAddress: u64

    /** Both captures start null. */
    constructor ()
      ensures transformSpace == Null && lastSkeletonAddress == 0
    {
      transformSpace := Null;
      lastSkeletonAddress := 0;
    }

    /** `SetBoneModelSpaceDetour` (`SetBoneModelSpaceFfxivDetour` in the last
        generation): records both addresses, returns the bone id widened to
        `ulong`, and does nothing else. */
    method SetBoneModelSpaceDetour(partialSkeletons: Addr, boneId: u16, transform: Addr,
                                   enableSecondary: bool, enablePropagate: bool) returns (r: u64)
      modifies this
      ensures lastSkeletonAddress == partialSkeletons && transformSpace == transform
      ensures r == boneId
    {
      lastSkeletonAddress := partialSkeletons;
      transformSpace := transform;
      r := boneId;
    }

    /** `WriteToGameTransform`: copies `transform` into the captured slot and
        returns the captured pointer. Writing through an unmapped (or still
        null) pointer faults: `ok` is false and memory is untouched. */
    method WriteToGameTransform<F>(memory: TransformMemory<F>, transform: Transform<F>) returns (r: Addr, ok: bool)
      requires memory.Valid()
      modifies memory
      ensures memory.Valid()
      ensures ok <==> transformSpace in old(memory.slots)
      ensures ok ==> r == transformSpace &&
                     memory.slots == old(memory.slots)[transformSpace := CopyInto(old(memory.slots)[transformSpace], transform)]
      ensures !ok ==> memory.slots == old(memory.slots)
    {
      var transformPtr := transformSpace;
      if transformPtr !in memory.slots {
        return Null, false;
      }
      var slot := memory.slots[transformPtr];
      memory.slots := memory.slots[transformPtr := CopyInto(slot, transform)];
      r, ok := transformPtr, true;
    }
  }
}
