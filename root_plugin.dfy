/** The first generation of the plugin (`Plugin.cs`): two hooks, one "pause
    all" checkbox, and a browser over the local player's partial skeletons
    and bones whose selection is cleared whenever the player's render
    skeleton changes. */
module RootPlugin {
  import opened Havok
  import opened Hooking
  import opened RenderSkeletons
  import opened Editing

  /** Registration order of the hooks. */
  const SetBoneXSpace: nat := 0
  const GetBoneModelSpace: nat := 1
  const HookCount: nat := 2

  /** "Nothing selected". */
  const NoSelection: int := -1

  class Plugin {
    const hooks: seq<Hook?>
    var updatePaused: bool
    var lastRenderSkele: Addr
    var selectedPartialIndex: int
    var selectedBoneIndex: int

    /** The bone list is only drawn under a selected partial skeleton, and
        every change of partial skeleton clears the bone. */
    ghost predicate Valid()
      reads this
    {
      && |hooks| == HookCount && Distinct(hooks)
      && (selectedBoneIndex != NoSelection ==> selectedPartialIndex != NoSelection)
    }

    /** `Initialize`: the two hooks are registered in order inside one `try`
        (a missed scan leaves that hook and the next unassigned); nothing is
        paused or selected. */
    constructor (found: seq<bool>, hosts: seq<Call -> Addr>)
      requires |found| == HookCount && |hosts| == HookCount
      ensures Valid()
      ensures FirstNull(hooks) == FirstMiss(found)
      ensures forall i :: 0 <= i < HookCount && hooks[i] != null ==> fresh(hooks[i]) && !hooks[i].enabled
      ensures !updatePaused && lastRenderSkele == Null
      ensures selectedPartialIndex == NoSelection && selectedBoneIndex == NoSelection
    {
      var registered := Register(found, hosts);
      hooks := registered;
      updatePaused := false;
      lastRenderSkele := Null;
      selectedPartialIndex := NoSelection;
      selectedBoneIndex := NoSelection;
    }

    /** The "Pause all skeleton updates" checkbox: the flag flips and both
        hooks are enabled when it is now set, disabled when it is now clear.
        An unassigned hook throws on the way (`ok` false). */
    method ClickPauseAll() returns (ok: bool)
      requires Valid()
      modifies this, Objects(hooks)
      ensures Valid()
      ensures updatePaused == !old(updatePaused)
      ensures ok <==> null !in hooks
      ensures ok ==> forall i :: 0 <= i < HookCount ==> hooks[i].enabled == updatePaused
      ensures forall i :: 0 <= i < FirstNull(hooks) ==> hooks[i].enabled == updatePaused
      ensures forall i :: FirstNull(hooks) <= i < HookCount && hooks[i] != null ==>
                hooks[i].enabled == old(hooks[i].enabled)
      ensures forall h :: h in Objects(hooks) ==> h.originalCalls == old(h.originalCalls)
      ensures lastRenderSkele == old(lastRenderSkele)
      ensures selectedPartialIndex == old(selectedPartialIndex) && selectedBoneIndex == old(selectedBoneIndex)
    {
      updatePaused := !updatePaused;
      ok := SetAll(hooks, updatePaused);
    }

    /** The part of `DrawUI` before the partial-skeleton list. A null local
        player or a player without a render skeleton ends the frame with no
        selection change (`proceed` false). Otherwise a render skeleton other
        than the last one seen is recorded and clears both selections. */
    method BeginFrame(mem: Memory, localPlayer: Option<Addr>) returns (renderSkele: Addr, proceed: bool)
      requires Valid()
      requires localPlayer.Some? ==> ChainReadable(mem, localPlayer.value, ActorDrawObjectOffset)
      modifies this
      ensures Valid() && updatePaused == old(updatePaused)
      ensures proceed <==> localPlayer.Some? && FromActorAddress(mem, localPlayer.value) != Null
      ensures !proceed ==>
                lastRenderSkele == old(lastRenderSkele) &&
                selectedPartialIndex == old(selectedPartialIndex) && selectedBoneIndex == old(selectedBoneIndex)
      ensures proceed ==> renderSkele == FromActorAddress(mem, localPlayer.value) && lastRenderSkele == renderSkele
      ensures proceed && renderSkele != old(lastRenderSkele) ==>
                selectedPartialIndex == NoSelection && selectedBoneIndex == NoSelection
      ensures proceed && renderSkele == old(lastRenderSkele) ==>
                selectedPartialIndex == old(selectedPartialIndex) && selectedBoneIndex == old(selectedBoneIndex)
    {
      if localPlayer.None? {
        return Null, false;
      }
      renderSkele := FromActorAddress(mem, localPlayer.value);
      if renderSkele == Null {
        return Null, false;
      }
      if renderSkele != lastRenderSkele {
        lastRenderSkele := renderSkele;
        selectedPartialIndex := NoSelection;
        selectedBoneIndex := NoSelection;
      }
      proceed := true;
    }

    /** "Deselect" above the partial-skeleton list: both selections clear. */
    method Deselect()
      requires Valid()
      modifies this
      ensures Valid()
      ensures selectedPartialIndex == NoSelection && selectedBoneIndex == NoSelection
      ensures lastRenderSkele == old(lastRenderSkele) && updatePaused == old(updatePaused)
    {
      selectedPartialIndex := NoSelection;
      selectedBoneIndex := NoSelection;
    }

    /** Clicking partial skeleton `index`: it is selected and the bone clears. */
    method SelectPartial(index: int)
      requires Valid()
      modifies this
      ensures Valid()
      ensures selectedPartialIndex == index && selectedBoneIndex == NoSelection
      ensures lastRenderSkele == old(lastRenderSkele) && updatePaused == old(updatePaused)
    {
      selectedPartialIndex := index;
      selectedBoneIndex := NoSelection;
    }

    /** Clicking a bone in the bone list, drawn only under a selected partial. */
    method SelectBone(index: int)
      requires Valid() && selectedPartialIndex != NoSelection
      modifies this
      ensures Valid()
      ensures selectedBoneIndex == index && selectedPartialIndex == old(selectedPartialIndex)
      ensures lastRenderSkele == old(lastRenderSkele) && updatePaused == old(updatePaused)
    {
      selectedBoneIndex := index;
    }

    /** "Deselect" above the bone list: only the bone clears. */
    method DeselectBone()
      requires Valid()
      modifies this
      ensures Valid()
      ensures selectedBoneIndex == NoSelection && selectedPartialIndex == old(selectedPartialIndex)
      ensures lastRenderSkele == old(lastRenderSkele) && updatePaused == old(updatePaused)
    {
      selectedBoneIndex := NoSelection;
    }

    /** A rotation slider of the selected bone, writing `ModelPose` directly. */
    method SlideRotation<F>(modelPose: HkaArray<Transform<F>>, axis: Axis, value: F)
      requires Valid() && selectedBoneIndex != NoSelection
      requires modelPose.Valid() && 0 <= selectedBoneIndex < modelPose.length
      modifies modelPose.data
      ensures modelPose.Valid()
      ensures modelPose.Contents() ==
                old(modelPose.Contents())[selectedBoneIndex :=
                  old(modelPose.Contents()[selectedBoneIndex]).(rotation := WithComponent(old(modelPose.Contents()[selectedBoneIndex]).rotation, axis, value))]
    {
      EditModelPoseRotation(modelPose, selectedBoneIndex, axis, value);
    }
  }
}
