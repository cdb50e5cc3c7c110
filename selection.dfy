/** What the actor/skeleton/bone browser has selected, in the two later
    generations. The first of them uses `int` fields with -1 for "nothing",
    the last `uint` fields with `uint.MaxValue`; the logic is the same, so
    the sentinel is a constructor argument. */
module Selection {

  class SelectionState {
    /** The "nothing selected" sentinel. */
    const none: int
    var lastActorId: int
    var selectedActorId: int
    var selectedPartialIndex: int
    var selectedBoneIndex: int

    /** A bone is only ever selected inside a selected partial skeleton of a
        selected actor: the bone list is drawn only in that case, and every
        change of actor or partial clears the bone. */
    ghost predicate Valid()
      reads this
    {
      selectedBoneIndex != none ==> selectedActorId != none && selectedPartialIndex != none
    }

    /** All four fields start at the sentinel. */
    constructor (sentinel: int)
      ensures Valid() && none == sentinel
      ensures lastActorId == none && selectedActorId == none
      ensures selectedPartialIndex == none && selectedBoneIndex == none
    {
      none := sentinel;
      lastActorId := sentinel;
      selectedActorId := sentinel;
      selectedPartialIndex := sentinel;
      selectedBoneIndex := sentinel;
    }

    /** The "Deselect" entry above the actor list: actor, partial and bone
        are cleared; the last-seen actor is kept. */
    method Deselect()
      requires Valid()
      modifies this
      ensures Valid()
      ensures selectedActorId == none && selectedPartialIndex == none && selectedBoneIndex == none
      ensures lastActorId == old(lastActorId)
    {
      selectedActorId := none;
      selectedPartialIndex := none;
      selectedBoneIndex := none;
    }

    /** Clicking partial skeleton `index` of actor `actorId`: both are
        selected and the bone selection is cleared. */
    method SelectPartial(actorId: int, index: int)
      requires Valid()
      modifies this
      ensures Valid()
      ensures selectedActorId == actorId && selectedPartialIndex == index && selectedBoneIndex == none
      ensures lastActorId == old(lastActorId)
    {
      selectedActorId := actorId;
      selectedPartialIndex := index;
      selectedBoneIndex := none;
    }

    /** Clicking bone `index` in the bone list, which is drawn only while an
        actor and a partial skeleton are selected. */
    method SelectBone(index: int)
      requires Valid() && selectedActorId != none && selectedPartialIndex != none
      modifies this
      ensures Valid()
      ensures selectedBoneIndex == index
      ensures selectedActorId == old(selectedActorId) && selectedPartialIndex == old(selectedPartialIndex)
      ensures lastActorId == old(lastActorId)
    {
      selectedBoneIndex := index;
    }

    /** The "Deselect" entry above the bone list: only the bone is cleared. */
    method DeselectBone()
      requires Valid()
      modifies this
      ensures Valid()
      ensures selectedBoneIndex == none
      ensures selectedActorId == old(selectedActorId) && selectedPartialIndex == old(selectedPartialIndex)
      ensures lastActorId == old(lastActorId)
    {
      selectedBoneIndex := none;
    }

    /** The end-of-list reconciliation: a newly selected actor becomes the
        last-seen one; otherwise, if the last-seen actor was not in the
        object table this frame, all four fields are reset. Either way the
        last-seen and selected actors agree afterwards. */
    method Reconcile(selectedActorFound: bool)
      requires Valid()
      modifies this
      ensures Valid()
      ensures lastActorId == selectedActorId
      ensures old(selectedActorId) != old(lastActorId) ==>
                selectedActorId == old(selectedActorId) && selectedPartialIndex == old(selectedPartialIndex) &&
                selectedBoneIndex == old(selectedBoneIndex)
      ensures old(selectedActorId) == old(lastActorId) && selectedActorFound ==>
                selectedActorId == old(selectedActorId) && selectedPartialIndex == old(selectedPartialIndex) &&
                selectedBoneIndex == old(selectedBoneIndex)
      ensures old(selectedActorId) == old(lastActorId) && !selectedActorFound ==>
                selectedActorId == none && selectedPartialIndex == none && selectedBoneIndex == none
    {
      if selectedActorId != lastActorId {
        lastActorId := selectedActorId;
      } else if !selectedActorFound {
        selectedActorId := none;
        lastActorId := none;
        selectedPartialIndex := none;
        selectedBoneIndex := none;
      }
    }
  }

  /** The object-table pass that sets `selectedActorFound`: true exactly
      when some listed actor has the last-seen id. */
  method FindActor(objectIds: seq<int>, lastActorId: int) returns (found: bool)
    ensures found <==> lastActorId in objectIds
  {
    found := false;
    var i := 0;
    while i < |objectIds|
      invariant 0 <= i <= |objectIds|
      invariant found <==> lastActorId in objectIds[..i]
    {
      if objectIds[i] == lastActorId {
        found := true;
      }
      i := i + 1;
    }
    assert objectIds[..i] == objectIds;
  }
}
