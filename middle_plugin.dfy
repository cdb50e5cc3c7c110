/** The second generation of the plugin (`PoseTest/Plugin.cs`): five hooks
    behind one "pause all" checkbox, an actor/partial/bone browser with -1
    for "nothing selected", the captured bone-write state, and the slider
    edit that propagates to descendants. */
module MiddlePlugin {
  import opened Havok
  import opened Hooking
  import opened Propagation
  import opened Detours
  import opened Selection
  import opened Editing

  /** Registration order of the hooks. */
  const SetBoneModelSpace: nat := 0
  const GetBoneModelSpace: nat := 1
  const SyncAll: nat := 2
  const GetSkeleton: nat := 3
  const ExecuteSampleBlendJob: nat := 4
  const HookCount: nat := 5

  class Plugin {
    const hooks: seq<Hook?>
    const capture: BoneWriteCapture
    const selection: SelectionState
    var updatePaused: bool

    ghost predicate Valid()
      reads this, selection
    {
      && |hooks| == HookCount && Distinct(hooks)
      && selection.Valid() && selection.none == -1
    }

    /** `Initialize`: the five hooks are registered in order inside one
        `try`; the first missed scan leaves it and every later hook
        unassigned. Nothing is paused, selected or captured. */
    constructor (found: seq<bool>, hosts: seq<Call -> Addr>)
      requires |found| == HookCount && |hosts| == HookCount
      ensures Valid() && fresh(capture) && fresh(selection)
      ensures FirstNull(hooks) == FirstMiss(found)
      ensures forall i :: 0 <= i < HookCount && hooks[i] != null ==> fresh(hooks[i]) && !hooks[i].enabled
      ensures !updatePaused
      ensures capture.transformSpace == Null && capture.lastSkeletonAddress == 0
      ensures selection.selectedActorId == -1 && selection.lastActorId == -1
      ensures selection.selectedPartialIndex == -1 && selection.selectedBoneIndex == -1
    {
      var registered := Register(found, hosts);
      hooks := registered;
      capture := new BoneWriteCapture();
      selection := new SelectionState(-1);
      updatePaused := false;
    }

    /** The "Pause all skeleton updates" checkbox: the flag flips, then all
        five hooks are enabled (flag set) or disabled (flag clear) in
        registration order; an unassigned hook throws on the way. */
    method ClickPauseAll() returns (ok: bool)
      requires Valid()
      modifies this, Objects(hooks)
      ensures Valid()
      ensures updatePaused == !old(updatePaused)
      ensures ok <==> null !in hooks
      ensures ok ==> forall i :: 0 <= i < HookCount ==> hooks[i].enabled == updatePaused
      ensures forall i :: 0 <= i < FirstNull(hooks) ==> hooks[i].enabled == updatePaused
      ensures forall i :: FirstNull(hooks) <= i < HookCount && hooks[i] != null ==>
                hooks[i].enabled == old(hooks[i].enabled)
      ensures forall h :: h in Objects(hooks) ==> h.originalCalls == old(h.originalCalls)
    {
      updatePaused := !updatePaused;
      ok := SetAll(hooks, updatePaused);
    }

    /** The end of the actor list: the object table is searched for the
        last-seen actor and the selection reconciled with the result. */
    method EndActorList(objectIds: seq<int>)
      requires Valid()
      modifies selection
      ensures Valid()
      ensures selection.lastActorId == selection.selectedActorId
      ensures old(selection.selectedActorId) == old(selection.lastActorId) && old(selection.lastActorId) !in objectIds ==>
                selection.selectedActorId == -1 && selection.selectedPartialIndex == -1 && selection.selectedBoneIndex == -1
      ensures old(selection.selectedActorId) != old(selection.lastActorId) || old(selection.lastActorId) in objectIds ==>
                selection.selectedActorId == old(selection.selectedActorId) &&
                selection.selectedPartialIndex == old(selection.selectedPartialIndex) &&
                selection.selectedBoneIndex == old(selection.selectedBoneIndex)
    {
      var found := FindActor(objectIds, selection.lastActorId);
      selection.Reconcile(found);
    }

    /** A rotation slider of the selected bone: `LocalPose[bone]` gets the new
        rotation and the change is propagated through the model-space hook. */
    method SlideRotation<F>(localPose: HkaArray<Transform<F>>, parentIndices: HkaArray<int>,
                            newRotation: Vector4<F>, ghost depth: seq<nat>)
      requires Valid() && selection.selectedBoneIndex != -1
      requires hooks[GetBoneModelSpace] != null
      requires localPose.Valid() && 0 <= selection.selectedBoneIndex < localPose.length
      requires parentIndices.Valid() && parentIndices.length <= ShortMax
      requires Ranked(parentIndices.Contents(), depth)
      modifies localPose.data, hooks[GetBoneModelSpace]
      ensures localPose.Valid()
      ensures localPose.Contents() ==
                old(localPose.Contents())[selection.selectedBoneIndex :=
                  old(localPose.Contents()[selection.selectedBoneIndex]).(rotation := newRotation)]
      ensures hooks[GetBoneModelSpace].originalCalls ==
                old(hooks[GetBoneModelSpace].originalCalls) +
                AsCalls(Walk(parentIndices.Contents(), depth, ToShort(selection.selectedBoneIndex)))
      ensures hooks[GetBoneModelSpace].enabled == old(hooks[GetBoneModelSpace].enabled)
    {
      SliderEdit(hooks[GetBoneModelSpace], localPose, parentIndices, selection.selectedBoneIndex, newRotation, depth);
    }
  }
}
