# PoseTest skeleton-editing plugin, modelled in Dafny

PoseTest is a game plugin that hooks the engine's Havok skeleton functions. It
lets a user browse actors, their partial skeletons and their bones, and edit a
bone's rotation. The repository holds three generations of the plugin:

- the root `Plugin.cs` with `PoseStructs.cs`;
- `PoseTest/Plugin.cs`;
- `PoseTest/PoseTestPlugin.cs`, with `PoseTest/PoseStructs.cs` beside both later ones.

This project models the parts of all three that can be stated precisely:

- **Havok types** (`havok.dfy`, module `Havok`):
  - `hkaArray<T>` is a class over a Dafny `array` plus its `Length`, with the int and uint indexers and `CopyToList`;
  - `hkVector4`, `hkQsTransform` and the `hkaPose` header are datatypes;
  - floats are a type parameter `F` that is only copied.
- **Render-skeleton resolution** (`render_skeleton.dfy`, module `RenderSkeletons`):
  - `RenderSkeleton.FromActor` follows fixed offsets over memory modelled as a map from (address, offset) to address;
  - it fails closed at every zero link.
- **Hooks** (`hooking.dfy`, module `Hooking`):
  - a hook is an object with an `enabled` bit, an uninterpreted `original` function and a trace of calls forwarded to it;
  - registration is sequential inside one `try`;
  - "pause all" enables or disables every hook;
  - a per-hook pause button toggles its flag and the hook together.
- **Descendant propagation** (`propagation.dfy`, module `Propagation`):
  - `UpdateChildren` collects the children of a bone by a linear scan, then forwards the model-space calculation for each child and recurses into it.
  - It is proved against `Walk`, a pre-order depth-first walk over the parent array.
  - `Walk` is proved to visit every strict descendant exactly once, never the start bone, parents before their descendants.
  - Termination needs a ghost rank `depth` witnessing that the parent array is acyclic.
  - `GuardedWalk` is the same walk with a guard against re-entering a bone already on the path; it is defined on every parent array and equals `Walk` on acyclic ones.
- **Detours** (`detours.dfy`, module `Detours`):
  - what each replacement function returns;
  - the state captured by `SetBoneModelSpace(Ffxiv)Detour`;
  - the field-by-field copy of `WriteToGameTransform` into the captured slot;
  - the 48-byte slot arithmetic of the model-space detour, wrapping modulo 2^64.
- **Edits** (`editing.dfy`, module `Editing`):
  - the first generation's slider writes one rotation component of `ModelPose`;
  - the later generations' slider replaces the rotation of `LocalPose[bone]` and then propagates;
  - the "update" button;
  - C#'s unchecked `(short)` cast.
- **Selection** (`selection.dfy`, module `Selection`):
  - the actor/partial/bone selection of the two later generations, with its sentinel (-1 or `uint.MaxValue`);
  - deselect, select and end-of-list reconciliation;
  - the scan of the object table for the last-seen actor.
- **One class per generation** (`root_plugin.dfy`, `middle_plugin.dfy` and `posetest_plugin.dfy`):
  - each holds that generation's hooks and UI state;
  - each exposes the button and slider handlers of its `DrawUI`.

## Model

| member | source | states |
|---|---|---|
| Havok.HkaArray.constructor | PoseTest/PoseStructs.cs:146-150 | the array views `Data[0..Length)` of a buffer of at least `Length` elements |
| Havok.HkaArray.At | PoseTest/PoseStructs.cs:152-156 | the int indexer's get returns element `index` of the contents and changes nothing; the root generation's indexer at PoseStructs.cs:153-157 is the same |
| Havok.HkaArray.AtUnsigned | PoseTest/PoseStructs.cs:158-162 | the uint indexer's get returns element `index` of the contents |
| Havok.HkaArray.Set | PoseTest/PoseStructs.cs:152-156 | the int indexer's set writes `Data[index]` in place; every other buffer element and the length are unchanged |
| Havok.HkaArray.SetUnsigned | PoseTest/PoseStructs.cs:158-162 | the uint indexer's set writes the same slot, and no other, as the int set |
| Havok.HkaArray.CopyToList | PoseTest/PoseStructs.cs:164-170 | the list has exactly `Length` elements and element i is `Data[i]`; the buffer is not modified |
| Havok.IndexersAgree | PoseTest/PoseStructs.cs:152-162 | the uint and int indexers read the same element for equal numeric indices |
| RenderSkeletons.FromGameObject | PoseTest/PoseStructs.cs:23-31 | null for a null object or a null draw object; otherwise exactly the pointer stored at offset 160 of the draw object; non-null exactly when the whole chain resolves |
| RenderSkeletons.FromActorAddress | PoseStructs.cs:24-32 | the root generation's chain through offset 240 and then 160: null when the actor or the draw object is null; otherwise exactly the pointer stored at offset 160 of the draw object; non-null exactly when the whole chain resolves |
| RenderSkeletons.ListingAsWritten | PoseTest/Plugin.cs:279-287 | the middle generation reads `PartialSkeletons` through the resolved pointer without a null check: a fault exactly when the actor has no render skeleton; otherwise no partial skeletons exactly when the stored `PartialSkeletons` pointer is null, and that pointer when it is not |
| RenderSkeletons.ActorListing | PoseTest/PoseTestPlugin.cs:468-476 | the latest generation checks the render skeleton for null first: it never faults; it lists nothing exactly when the skeleton or its `PartialSkeletons` pointer is null, and otherwise reads as the unguarded version does |
| RenderSkeletons.UndrawnActorFaults | PoseTest/Plugin.cs:279-287 | a concrete actor whose draw object is null: `FromActor` gives null, the unguarded listing faults, the guarded one lists nothing |
| Hooking.Hook.constructor | PoseTest/PoseTestPlugin.cs:110-111 | a new hook is disabled, has forwarded nothing, and forwards to the given original |
| Hooking.Hook.Enable | PoseTest/PoseTestPlugin.cs:328-334 | the hook becomes enabled; nothing is forwarded |
| Hooking.Hook.Disable | PoseTest/PoseTestPlugin.cs:328-334 | the hook becomes disabled; nothing is forwarded |
| Hooking.Hook.Original | PoseTest/PoseTestPlugin.cs:283 | the call goes to the original function, returns its result and is appended to the trace; enabled is unchanged |
| Hooking.FirstMiss | PoseTest/Plugin.cs:70-88 | the index of the first failed signature scan: every earlier scan succeeded |
| Hooking.FirstNull | PoseTest/Plugin.cs:70-88 | the index of the first unassigned hook: every earlier hook is assigned, and it equals the count exactly when none is unassigned |
| Hooking.Register | PoseTest/Plugin.cs:70-88 | hooks are created in order inside one `try`: hook i is assigned exactly when every scan up to and including i succeeded, each is a fresh disabled distinct object |
| Hooking.FirstNullAt | PoseTest/Plugin.cs:70-88 | a prefix of assigned hooks followed by an unassigned one fixes the first unassigned index |
| Hooking.SetAll | PoseTest/Plugin.cs:227-245 | every hook before the first unassigned one is enabled or disabled as asked; the first unassigned hook throws, leaving the later ones untouched; `ok` exactly when all were assigned; no hook forwards a call |
| Hooking.TogglePause | PoseTest/PoseTestPlugin.cs:324-335 | a pause button flips its flag and leaves the hook enabled exactly when the flag is now set; an unassigned hook throws before the flag changes |
| Propagation.ChildrenBelow | PoseTest/PoseTestPlugin.cs:274-279 | the scan up to k yields, in increasing order, exactly the indices i < k with `parents[i] == boneId` and `0 <= parents[i] <= Count` |
| Propagation.Children | PoseTest/PoseTestPlugin.cs:274-279 | the children list is increasing and holds exactly the bones passing the child test; the upper bound is inclusive |
| Propagation.NoChildrenOutOfRange | PoseTest/PoseTestPlugin.cs:276 | a negative bone id, or one above `Count`, has no children |
| Propagation.ChildrenBelowEmpty | PoseTest/PoseTestPlugin.cs:276 | the same for every prefix of the scan |
| Propagation.AsCalls | PoseTest/PoseTestPlugin.cs:283 | each visited bone becomes one forwarded `CalculateBoneModelSpace` call, in order |
| Propagation.AsCallsAppend | PoseTest/PoseTestPlugin.cs:281-285 | the trace of two walks in sequence is the concatenation of their traces |
| Propagation.BelowDeeper | PoseTest/PoseTestPlugin.cs:270-286 | a strict descendant has a strictly greater rank than its ancestor |
| Propagation.BelowIrreflexive | PoseTest/PoseTestPlugin.cs:270-286 | on an acyclic parent array no bone is its own descendant |
| Propagation.BelowTransitive | PoseTest/PoseTestPlugin.cs:270-286 | a descendant of a descendant is a descendant |
| Propagation.TopChild | PoseTest/PoseTestPlugin.cs:281-285 | every strict descendant lies below a unique child of the start bone |
| Propagation.TopChildIs | PoseTest/PoseTestPlugin.cs:281-285 | that child is c exactly when the descendant is c or lies below c |
| Propagation.TopChildOfDescendant | PoseTest/PoseTestPlugin.cs:281-285 | a descendant of a descendant shares its top child |
| Propagation.WalkListCovers | PoseTest/PoseTestPlugin.cs:281-285 | walking an increasing list of children visits exactly the descendants under those children, each once |
| Propagation.WalkCovers | PoseTest/PoseTestPlugin.cs:270-286 | the walk from a bone visits exactly its strict descendants, each exactly once |
| Propagation.WalkExcludesStart | PoseTest/PoseTestPlugin.cs:270-286 | the start bone is never recomputed by its own propagation |
| Propagation.SelfParentAsWritten | PoseTest/PoseTestPlugin.cs:270-286 | a bone whose parent entry is itself passes the child filter for itself, so the unguarded recursion repeats forever; no rank exists for such an array |
| Propagation.GuardedWalk | PoseTest/PoseTestPlugin.cs:270-286 | the propagation with the missing guard added: defined on every parent array, it skips a child already on the path from the start bone, so no bone of the path (the start bone included) is ever recomputed |
| Propagation.GuardedWalkList | PoseTest/PoseTestPlugin.cs:281-285 | the guarded loop over a child list: no bone of the path appears in its result |
| Propagation.SelfParentGuarded | PoseTest/PoseTestPlugin.cs:274-285 | the array `[0]` edited at bone 0, the input on which the source recurses forever, gives an empty guarded walk |
| Propagation.GuardedWalkAgrees | PoseTest/PoseTestPlugin.cs:270-286 | on an acyclic parent array the guard never fires: the guarded walk from a bone equals `Walk`, the order the source recomputes in |
| Propagation.GuardedWalkAgreesOn | PoseTest/PoseTestPlugin.cs:270-286 | the same for any path whose bones rank no deeper than the current bone |
| Propagation.GuardedWalkListAgreesOn | PoseTest/PoseTestPlugin.cs:281-285 | the same for the loop over a child list |
| Propagation.WalkListTopDown | PoseTest/PoseTestPlugin.cs:281-285 | walking a list of children never visits a bone after one of its own descendants |
| Propagation.WalkTopDown | PoseTest/PoseTestPlugin.cs:273-285 | pre-order: every bone's calculation precedes those of its descendants |
| Propagation.CollectChildren | PoseTest/PoseTestPlugin.cs:272-279 | the `short`-counted loop builds exactly the children list |
| Propagation.UpdateChildren | PoseTest/PoseTestPlugin.cs:270-286 | the hook's trace grows by exactly the walk from `boneId`; the parent indices are only read; enabled is unchanged (also PoseTest/Plugin.cs:202-218) |
| Propagation.ChildCloser | PoseTest/PoseTestPlugin.cs:284 | recursing into a child decreases the termination measure |
| Propagation.WalkListStep | PoseTest/PoseTestPlugin.cs:281-285 | one more loop iteration appends the child's call and then its subtree |
| Propagation.InitOrLast | PoseTest/PoseTestPlugin.cs:281 | an element of the children list is the last one or lies in the list before it |
| Propagation.LastNotInInit | PoseTest/PoseTestPlugin.cs:274-279 | an increasing children list has no repeat of its last element |
| Propagation.NoDuplicatesAppend | PoseTest/PoseTestPlugin.cs:281-285 | the walks of two disjoint subtrees together have no repeated bone |
| Detours.CalculateBoneModelSpaceDetour | PoseTest/PoseTestPlugin.cs:188-194 | the address of slot `boneIdx` of `ModelPose`: `Data + 48 * boneIdx` modulo 2^64, and for an index whose slot ends inside the address space, exactly 48 bytes per index past `Data` with the whole slot in range; the root and middle `GetBoneModelSpaceDetour` (Plugin.cs:69-73, PoseTest/Plugin.cs:125-131) are the same |
| Detours.SlotAddressInBuffer | PoseTest/PoseTestPlugin.cs:192-193 | for an index inside a buffer that does not wrap, the slot lies wholly inside the buffer and the sum does not wrap |
| Detours.SlotAddressStride | PoseTest/PoseTestPlugin.cs:193 | consecutive bones are 48 bytes apart, modulo 2^64 |
| Detours.SlotAddressInjective | PoseTest/PoseTestPlugin.cs:192-193 | different 32-bit bone indices give different slot addresses |
| Detours.SkeletonPointerDetour | PoseTest/PoseTestPlugin.cs:167-173 | returns the pose's `SkeletonPointer` unchanged; also `GetSkeletonDetour` at PoseTest/Plugin.cs:109-115 |
| Detours.SetBoneXSpaceDetour | Plugin.cs:76-87 | returns `boneId` widened to 64 bits, so below 2^16, and changes no state |
| Detours.ZeroCounts | PoseTest/PoseTestPlugin.cs:145-148 | the forwarded arguments have `numBones` and `numFloats` 0 and every other argument unchanged |
| Detours.ZeroCountsIdempotent | PoseTest/PoseTestPlugin.cs:147 | rewriting an already rewritten argument list changes nothing |
| Detours.ZeroCountsEqualIff | PoseTest/PoseTestPlugin.cs:147 | two argument lists are forwarded identically exactly when they agree on every argument except the two counts |
| Detours.HkaBlendJobBuildDetour | PoseTest/PoseTestPlugin.cs:145-148 | one call is forwarded to the original, with the rewritten arguments, and its result is returned |
| Detours.CopyInto | PoseTest/PoseTestPlugin.cs:238-252 | after the copy, the slot's rotation is the source's, its translation and scale xyz are the source's, and their w components keep the slot's values |
| Detours.CopyIntoFixpoint | PoseTest/PoseTestPlugin.cs:238-252 | the copy leaves a slot unchanged exactly when the slot already agrees with the source on the ten copied floats |
| Detours.CopyIntoLastWins | PoseTest/PoseTestPlugin.cs:238-252 | two copies in a row leave what the second alone leaves; copying the same transform twice is copying it once |
| Detours.TransformMemory.constructor | PoseTest/PoseTestPlugin.cs:238-240 | the transform slots reachable through pointers, with the null address excluded |
| Detours.BoneWriteCapture.constructor | PoseTest/PoseTestPlugin.cs:66-73 | before any call, nothing is captured: a null slot and a zero skeleton address |
| Detours.BoneWriteCapture.SetBoneModelSpaceDetour | PoseTest/PoseTestPlugin.cs:197-214 | records the partial-skeleton address and the transform pointer, returns `boneId`, and changes nothing else (also PoseTest/Plugin.cs:134-151) |
| Detours.BoneWriteCapture.WriteToGameTransform | PoseTest/PoseTestPlugin.cs:238-252 | when the captured pointer addresses a slot, that slot becomes `CopyInto(slot, transform)`, no other slot changes, and the pointer is returned; otherwise the write would fault and the memory is untouched (also PoseTest/Plugin.cs:170-184) |
| Editing.ToShort | PoseTest/PoseTestPlugin.cs:570 | the `(short)` cast lands in [-32768, 32767] and is congruent to its input modulo 2^16 |
| Editing.ToShortIdentity | PoseTest/PoseTestPlugin.cs:570 | the cast is the identity exactly on values a `short` holds |
| Editing.ToShortPeriodic | PoseTest/PoseTestPlugin.cs:449 | indices 65536 apart propagate from the same bone |
| Editing.WithComponent | Plugin.cs:192-199 | a slider sets its own rotation component and leaves the other three as read |
| Editing.EditModelPoseRotation | Plugin.cs:191-199 | the first generation's slider writes back `ModelPose[bone]` with one rotation component replaced; every other transform is unchanged |
| Editing.SliderEdit | PoseTest/PoseTestPlugin.cs:557-572 | `LocalPose[bone]` keeps its translation and scale and gets the new rotation; no other transform changes; the parent indices are unchanged; the hook's trace grows by the walk from `(short) bone` (also PoseTest/Plugin.cs:358-372) |
| Editing.UpdateButton | PoseTest/PoseTestPlugin.cs:444-450 | the trace grows by the walk from the typed index cast to `short` (also PoseTest/Plugin.cs:255-261) |
| Selection.SelectionState.constructor | PoseTest/PoseTestPlugin.cs:53-56 | all four selection fields start at the sentinel |
| Selection.SelectionState.Deselect | PoseTest/PoseTestPlugin.cs:454-459 | actor, partial and bone clear; the last-seen actor is kept (also PoseTest/Plugin.cs:265-270) |
| Selection.SelectionState.SelectPartial | PoseTest/PoseTestPlugin.cs:483-488 | the actor and partial are selected and the bone clears (also PoseTest/Plugin.cs:294-299) |
| Selection.SelectionState.SelectBone | PoseTest/PoseTestPlugin.cs:614-619 | the bone is selected; actor and partial are kept; a selected bone always has a selected actor and partial (also PoseTest/Plugin.cs:410-417) |
| Selection.SelectionState.DeselectBone | PoseTest/PoseTestPlugin.cs:612-613 | only the bone clears |
| Selection.SelectionState.Reconcile | PoseTest/PoseTestPlugin.cs:499-508 | afterwards the last-seen and selected actors agree; a new selection is kept; if the actor was already selected and not found, all four fields reset to the sentinel (also PoseTest/Plugin.cs:310-319) |
| Selection.FindActor | PoseTest/PoseTestPlugin.cs:461-466 | found exactly when some listed object has the last-seen id (also PoseTest/Plugin.cs:272-277) |
| RootPlugin.Plugin.constructor | Plugin.cs:50-61 | the two hooks are registered in order, stopping at the first missed scan; nothing is paused or selected |
| RootPlugin.Plugin.ClickPauseAll | Plugin.cs:117-129 | the checkbox flips the flag; every hook before the first unassigned one takes the new flag as its enabled bit (both, when both are assigned); later hooks keep their bit; no hook forwards a call; selection is untouched |
| RootPlugin.Plugin.BeginFrame | Plugin.cs:131-149 | a missing player or render skeleton ends the frame with no selection change; a new render skeleton is recorded and clears partial and bone; the same one keeps them |
| RootPlugin.Plugin.Deselect | Plugin.cs:153-157 | partial and bone clear |
| RootPlugin.Plugin.SelectPartial | Plugin.cs:163-167 | the partial is selected and the bone clears |
| RootPlugin.Plugin.SelectBone | Plugin.cs:206-210 | the bone is selected under the selected partial |
| RootPlugin.Plugin.DeselectBone | Plugin.cs:204-205 | only the bone clears |
| RootPlugin.Plugin.SlideRotation | Plugin.cs:184-199 | one rotation component of `ModelPose[bone]` is replaced in place, nothing else changes |
| MiddlePlugin.Plugin.constructor | PoseTest/Plugin.cs:70-88 | the five hooks are registered in order, stopping at the first missed scan; each assigned hook is fresh and disabled; nothing is paused, selected or captured |
| MiddlePlugin.Plugin.ClickPauseAll | PoseTest/Plugin.cs:227-245 | the checkbox flips the flag; every hook before the first unassigned one takes the new flag as its enabled bit; all five do when all are assigned; later hooks keep their bit; no hook forwards a call |
| MiddlePlugin.Plugin.EndActorList | PoseTest/Plugin.cs:272-319 | the object-table scan followed by reconciliation: a vanished, still-selected actor resets the selection to -1, otherwise the selection is kept |
| MiddlePlugin.Plugin.SlideRotation | PoseTest/Plugin.cs:345-372 | the slider edit of `LocalPose` followed by propagation through the `GetBoneModelSpace` hook; that hook's enabled bit is unchanged |
| PoseTestPlugin.PoseTestPlugin.constructor | PoseTest/PoseTestPlugin.cs:108-135 | the eight hooks are registered in order, stopping at the first missed scan; no pause flag is set; nothing is selected or captured |
| PoseTestPlugin.PoseTestPlugin.PressPauseButton | PoseTest/PoseTestPlugin.cs:324-434 | the flag of hook k flips and the hook is enabled exactly when its flag is set; every other flag is unchanged; each flag keeps equal to its hook's enabled bit; the hook forwards no call |
| PoseTestPlugin.PoseTestPlugin.EndActorList | PoseTest/PoseTestPlugin.cs:461-508 | the object-table scan followed by reconciliation: a vanished, still-selected actor resets the selection to `uint.MaxValue`, otherwise the selection is kept |
| PoseTestPlugin.PoseTestPlugin.BlendJobBuild | PoseTest/PoseTestPlugin.cs:145-148 | the blend-job detour forwards through this plugin's `HkaBlendJobBuild` hook with both counts zeroed |
| PoseTestPlugin.PoseTestPlugin.SlideRotation | PoseTest/PoseTestPlugin.cs:557-572 | the slider edit of `LocalPose` followed by propagation through the `CalculateBoneModelSpace` hook |

## Left out

- Signature scanning: the scanner is a library outside this repository. Each scan is modelled only by a boolean input saying whether it found its pattern.
- Code patching: the installation and `Dispose` of a hook are modelled only by an enabled bit and an uninterpreted original function.
- Detours that do nothing (`SyncModelSpace`, `SyncLocalSpace`, `SyncAll`, `ExecuteSampleBlendJob`, `SkeletonUpdaterJobFunc`): they have no effect to model beyond their hook's enabled bit.
- Rotation conversion: `PoseMath.FromQ`/`ToQ` are float trigonometry outside the model. The converted rotation arrives as an input to the slider edits.
- Bone overlays: `DrawBone` and `MouseoverBone` are world-to-screen float projections.
- Presentation: ImGui drawing, clipboard helpers, tooltips, `ToString` and `PoseTest/PluginUI.cs` (the config window and `Configuration.Save`) are not modelled.
- Actor lookup: `GetRenderSkeletonByActorId`/`GetActorByActorId` query the game's object table. The object table enters the model as a sequence of object ids. The slider and update handlers take the resolved pose's arrays as inputs.
- `UpdateBone`: its only call sites are commented out. Its two parts, `WriteToGameTransform` and the forward through the set-bone hook, are modelled separately.
- Lifecycle: command registration, `Dispose` and game-thread timing are not modelled.
- Floats are an opaque type parameter. They are copied but never computed on.
- Propagation.UpdateChildren: requires `Ranked`, a ghost rank proving the whole parent array acyclic. The source only recurses forever when the start bone reaches a cycle below it; a cycle the walk never reaches is harmless there, but the model excludes every cyclic array. The same requirement is inherited by `Editing.SliderEdit`, `Editing.UpdateButton`, `MiddlePlugin.Plugin.SlideRotation` and `PoseTestPlugin.PoseTestPlugin.SlideRotation`; `RootPlugin.Plugin.SlideRotation` does not propagate and needs none.
- Propagation.UpdateChildren: requires at most 32767 bones. With more, the `short` loop counter wraps to a negative index and the source throws. The same bound is inherited by `Editing.SliderEdit`, `Editing.UpdateButton`, `MiddlePlugin.Plugin.SlideRotation` and `PoseTestPlugin.PoseTestPlugin.SlideRotation`.
- Propagation.UpdateChildren: takes an assigned hook. In the source the model-space hook field is null when its signature scan, or an earlier one, missed; the first child forwarded through it then throws a null-reference exception, and a bone without children completes normally. Neither is modelled for an unassigned hook.
- Editing.SliderEdit: takes an assigned hook, for the same reason: with an unassigned hook the source throws at the first forwarded child and completes for a bone without children.
- Editing.UpdateButton: takes an assigned hook, for the same reason: the source's update button throws at the first child of the typed bone when the hook is unassigned, and completes for a bone without children.
- Propagation.CollectChildren: requires at most 32767 bones, for the same reason.
- Editing.SliderEdit: requires the selected bone to index the pose. The source indexes raw memory without a bounds check.
- Editing.EditModelPoseRotation: requires an in-range bone index, for the same reason.
- Havok.HkaArray.At: requires an in-range index. The source indexer reads raw memory without a bounds check. The same holds for `AtUnsigned`, `Set` and `SetUnsigned`.
- MiddlePlugin.Plugin.SlideRotation: requires the model-space hook to be assigned. With an unassigned hook the source throws a null-reference exception at the first child it forwards; for a bone without children it completes normally. Neither behaviour is modelled for an unassigned hook.
- PoseTestPlugin.PoseTestPlugin.SlideRotation: requires the model-space hook to be assigned, for the same reason: the source throws at the first child forwarded through an unassigned hook and completes normally for a bone without children.
- Detours.BoneWriteCapture.WriteToGameTransform: a write through a pointer that addresses no modelled slot, such as the initial null, is reported as `ok == false` with memory untouched, where the source faults.
- RenderSkeletons.FromGameObject: requires every pointer on the chain to be readable in the memory map. An unreadable address crashes the source, and that crash is not modelled.
- RenderSkeletons.FromActorAddress: requires the same readable chain, through offset 240, for the same reason.

## Findings

| source | as written | input that shows it | evidently intended | confidence | as-written member | corrected member |
|---|---|---|---|---|---|---|
| PoseTest/Plugin.cs:279-287 | the actor list reads `thisRenderSkele->PartialSkeletons` right after `FromActor`, which returns null for an actor without a draw object or render skeleton | an actor whose pointer at offset 240 (its draw object) is null: `FromActor` returns null and the read faults | skip actors without a render skeleton, as the next generation does at PoseTest/PoseTestPlugin.cs:476 | high, not executed | RenderSkeletons.UndrawnActorFaults | RenderSkeletons.ActorListing |
| PoseTest/PoseTestPlugin.cs:270-286 | `UpdateChildren` recurses into every index whose parent entry equals the bone id, with no guard against the bone itself or a cycle (PoseTest/Plugin.cs:202-218 is the same) | a parent array with `parents[b] == b`, such as `[0]` edited at bone 0: bone 0 is its own child and the recursion never ends until the stack overflows | skip a child already on the path from the edited bone, together with its subtree, so the propagation ends; on acyclic arrays this is the unguarded order unchanged | high, not executed | Propagation.SelfParentAsWritten | Propagation.GuardedWalk |
