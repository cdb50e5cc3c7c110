/** The last generation of the plugin (`PoseTest/PoseTestPlugin.cs`): eight
    hooks, each with its own pause button whose flag mirrors the hook's
    enabled bit, an actor/partial/bone browser with `uint.MaxValue` for
    "nothing selected", the captured bone-write state, and the slider edit
    that propagates to descendants. */
module PoseTestPlugin {
  import opened Havok
  import opened Hooking
  import opened Propagation
  import opened Detours
  import opened Selection
  import opened Editing

  /** Registration order of the hooks. */
  const SetBoneModelSpaceFfxivHook: nat := 0
  const CalculateBoneModelSpaceHook: nat := 1
  const SyncModelSpaceHook: nat := 2
  const SyncLocalSpaceHook: nat := 3
  const SetToReferencePoseHook: nat := 4
  const ExecuteSampleBlendJobHook: nat := 5
  const SkeletonUpdaterJobFuncHook: nat := 6
  const HkaBlendJobBuildHook: nat := 7
  const HookCount: nat := 8

  class PoseTestPlugin {
    const hooks: seq<Hook?>
    const capture: BoneWriteCapture
    const selection: SelectionState
    /** The eight `_...Paused` flags, in registration order. */
    var paused: seq<bool>

    /** Each pause flag equals its hook's enabled bit, and a bone is only
        selected under a selected actor and partial skeleton. */
    ghost predicate Valid()
      reads this, Objects(hooks), selection
    {
      && |hooks| == HookCount && Distinct(hooks) && |paused| == HookCount
      && (forall i :: 0 <= i < HookCount && hooks[i] != null ==> paused[i] == hooks[i].enabled)
      && selection.Valid() && selection.none == U32Max
    }

    /** The constructor: the eight hooks are registered in order inside one
        `try` (the first missed scan leaves it and every later hook
        unassigned); no flag is set, nothing is selected or captured. */
    constructor (found: seq<bool>, hosts: seq<Call -> Addr>)
      requires |found| == HookCount && |hosts| == HookCount
      ensures Valid() && fresh(capture) && fresh(selection)
      ensures FirstNull(hooks) == FirstMiss(found)
      ensures forall i :: 0 <= i < HookCount ==> (hooks[i] != null <==> i < FirstMiss(found))
      ensures forall i :: 0 <= i < HookCount ==> !paused[i]
      ensures capture.transformSpace == Null && capture.lastSkeletonAddress == 0
      ensures selection.selectedActorId == U32Max && selection.lastActorId == U32Max
      ensures selection.selectedPartialIndex == U32Max && selection.selectedBoneIndex == U32Max
    {
      var registered := Register(found, hosts);
      hooks := registered;
      paused := seq(HookCount, _ => false);
      capture := new BoneWriteCapture();
      selection := new SelectionState(U32Max);
    }

    /** One "Pause X" / "Unpause X" button: the flag flips and the hook is
        enabled exactly when the flag is now set; an unassigned hook throws
        before its flag changes. No other flag or hook changes. */
    method PressPauseButton(k: nat) returns (ok: bool)
      requires Valid() && k < HookCount
      modifies this, if hooks[k] == null then {} else {hooks[k]}
      ensures Valid()
      ensures ok <==> hooks[k] != null
      ensures ok ==> paused[k] == !old(paused[k]) && hooks[k].enabled == paused[k]
      ensures !ok ==> paused[k] == old(paused[k])
      ensures forall i :: 0 <= i < HookCount && i != k ==> paused[i] == old(paused[i])
      ensures hooks[k] != null ==> hooks[k].originalCalls == old(hooks[k].originalCalls)
    {
      var nowPaused;
      nowPaused, ok := TogglePause(hooks[k], paused[k]);
      paused := paused[k := nowPaused];
    }

    /** The end of the actor list: the object table is searched for the
        last-seen actor and the selection reconciled with the result. */
    method EndActorList(objectIds: seq<int>)
      requires Valid()
      modifies selection
      ensures Valid()
      ensures selection.lastActorId == selection.selectedActorId
      ensures old(selection.selectedActorId) == old(selection.lastActorId) && old(selection.lastActorId) !in objectIds ==>
                selection.selectedActorId == U32Max && selection.selectedPartialIndex == U32Max &&
                selection.selectedBoneIndex == U32Max
      ensures old(selection.selectedActorId) != old(selection.lastActorId) || old(selection.lastActorId) in objectIds ==>
                selection.selectedActorId == old(selection.selectedActorId) &&
                selection.selectedPartialIndex == old(selection.selectedPartialIndex) &&
                selection.selectedBoneIndex == old(selection.selectedBoneIndex)
    {
      var found := FindActor(objectIds, selection.lastActorId);
      selection.Reconcile(found);
    }

    /** `HkaBlendJobBuildDetour` through this plugin's hook. */
    method BlendJobBuild(args: BlendJobArgs) returns (r: Addr)
      requires Valid() && hooks[HkaBlendJobBuildHook] != null
      modifies hooks[HkaBlendJobBuildHook]
      ensures Valid()
      ensures r == hooks[HkaBlendJobBuildHook].original(Call.HkaBlendJobBuild(ZeroCounts(args)))
      ensures hooks[HkaBlendJobBuildHook].originalCalls ==
                old(hooks[HkaBlendJobBuildHook].originalCalls) + [Call.HkaBlendJobBuild(ZeroCounts(args))]
    {
      r := HkaBlendJobBuildDetour(hooks[HkaBlendJobBuildHook], args);
    }

    /** A rotation slider of the selected bone: `LocalPose[bone]` gets the new
        rotation and the change is propagated through the model-space hook. */
    method SlideRotation<F>(localPose: HkaArray<Transform<F>>, parentIndices: HkaArray<int>,
                            newRotation: Vector4<F>, ghost depth: seq<nat>)
      requires Valid() && selection.selectedBoneIndex != U32Max
      requires hooks[CalculateBoneModelSpaceHook] != null
      requires localPose.Valid() && 0 <= selection.selectedBoneIndex < localPose.length
      requires parentIndices.Valid() && parentIndices.length <= ShortMax
      requires Ranked(parentIndices.Contents(), depth)
      modifies localPose.data, hooks[CalculateBoneModelSpaceHook]
      ensures Valid()
      ensures localPose.Contents() ==
                old(localPose.Contents())[selection.selectedBoneIndex :=
                  old(localPose.Contents()[selection.selectedBoneIndex]).(rotation := newRotation)]
      ensures hooks[CalculateBoneModelSpaceHook].originalCalls ==
                old(hooks[CalculateBoneModelSpaceHook].originalCalls) +
                AsCalls(Walk(parentIndices.Contents(), depth, ToShort(selection.selectedBoneIndex)))
    {
      SliderEdit(hooks[CalculateBoneModelSpaceHook], localPose, parentIndices, selection.selectedBoneIndex, newRotation, depth);
    }
  }
}
