/** Resolution of an actor's `RenderSkeleton` by a chain of pointer reads
    at fixed offsets. Host memory is an abstract map from (address, offset)
    to the pointer stored there; a read outside the map is an access the
    host would fault on, so each read is a precondition. */
module RenderSkeletons {
  import opened Havok

  /** Pointer-sized words of host memory, keyed by base address and byte offset. */
  type Memory = map<(Addr, int), Addr>

  /** `ActorDrawObjectOffset`: where an actor keeps its draw object. */
  const ActorDrawObjectOffset: int := 240
  /** `DrawObjectSkeletonOffset`: where a draw object keeps its render skeleton. */
  const DrawObjectSkeletonOffset: int := 160

  /** The reads `FromActor` performs before it stops are all mapped. */
  ghost predicate ChainReadable(mem: Memory, actor: Addr, drawObjectOffset: int)
  {
    actor != Null ==>
      (actor, drawObjectOffset) in mem &&
      (mem[(actor, drawObjectOffset)] != Null ==> (mem[(actor, drawObjectOffset)], DrawObjectSkeletonOffset) in mem)
  }

  /** The render skeleton reached from `actor` when every link is non-null. */
  ghost predicate Resolves(mem: Memory, actor: Addr, drawObjectOffset: int, skeleton: Addr)
  {
    && actor != Null
    && (actor, drawObjectOffset) in mem
    && mem[(actor, drawObjectOffset)] != Null
    && (mem[(actor, drawObjectOffset)], DrawObjectSkeletonOffset) in mem
    && mem[(mem[(actor, drawObjectOffset)], DrawObjectSkeletonOffset)] == skeleton
    && skeleton != Null
  }

  /** `RenderSkeleton.FromActor` of the later generation: the actor is a
      `GameObject*` whose `DrawObject` field sits at an offset defined by a
      library outside this model, hence a parameter. */
  function FromGameObject(mem: Memory, gameObject: Addr, drawObjectField: int): (r: Addr)
    requires ChainReadable(mem, gameObject, drawObjectField)
    ensures r != Null <==> Resolves(mem, gameObject, drawObjectField, r)
    ensures gameObject == Null ==> r == Null
    ensures gameObject != Null && mem[(gameObject, drawObjectField)] == Null ==> r == Null
    ensures gameObject != Null && mem[(gameObject, drawObjectField)] != Null ==>
              r == mem[(mem[(gameObject, drawObjectField)], DrawObjectSkeletonOffset)]
  {
    if gameObject == Null then Null
    else
      var drawObject := mem[(gameObject, drawObjectField)];
      if drawObject == Null then Null
      else
        var renderSkele := mem[(drawObject, DrawObjectSkeletonOffset)];
        if renderSkele == Null then Null
        else renderSkele
  }

  /** `RenderSkeleton.FromActor` of the first generation: the actor is an
      address and the draw object is read at offset 240 by hand, the same
      chain as the later generation's with the field at that offset. */
  function FromActorAddress(mem: Memory, actor: Addr): (r: Addr)
    requires ChainReadable(mem, actor, ActorDrawObjectOffset)
    ensures r != Null <==> Resolves(mem, actor, ActorDrawObjectOffset, r)
    ensures actor == Null ==> r == Null
    ensures actor != Null && mem[(actor, ActorDrawObjectOffset)] == Null ==> r == Null
    ensures actor != Null && mem[(actor, ActorDrawObjectOffset)] != Null ==>
              r == mem[(mem[(actor, ActorDrawObjectOffset)], DrawObjectSkeletonOffset)]
  {
    FromGameObject(mem, actor, ActorDrawObjectOffset)
  }

  // ---------------------------------------------------------------------
  // Listing an actor's partial skeletons

  /** Offset of `PartialSkeletons` inside a `RenderSkeleton`. */
  const PartialSkeletonsOffset: int := 104

  /** What the actor list finds for one actor: a fault (a read through the
      null pointer), no partial skeletons, or the partial-skeleton array. */
  datatype Listing = Fault | NoPartials | PartialsAt(partials: Addr)

  /** The middle generation's test before listing an actor's partial
      skeletons: it reads `PartialSkeletons` of whatever `FromActor`
      returned, null included. */
  function ListingAsWritten(mem: Memory, renderSkele: Addr): (r: Listing)
    requires renderSkele != Null ==> (renderSkele, PartialSkeletonsOffset) in mem
    ensures r == Fault <==> renderSkele == Null
    ensures r.PartialsAt? ==> r.partials == mem[(renderSkele, PartialSkeletonsOffset)] != Null
    ensures renderSkele != Null ==> (r == NoPartials <==> mem[(renderSkele, PartialSkeletonsOffset)] == Null)
  {
    if renderSkele == Null then Fault
    else
      var partials := mem[(renderSkele, PartialSkeletonsOffset)];
      if partials == Null then NoPartials else PartialsAt(partials)
  }

  /** The last generation's test: a null render skeleton is skipped before
      its field is read. */
  function ActorListing(mem: Memory, renderSkele: Addr): (r: Listing)
    requires renderSkele != Null ==> (renderSkele, PartialSkeletonsOffset) in mem
    ensures r != Fault
    ensures renderSkele == Null ==> r == NoPartials
    ensures r == NoPartials <==> renderSkele == Null || mem[(renderSkele, PartialSkeletonsOffset)] == Null
    ensures renderSkele != Null ==> r == ListingAsWritten(mem, renderSkele)
  {
    if renderSkele != Null && mem[(renderSkele, PartialSkeletonsOffset)] != Null then
      PartialsAt(mem[(renderSkele, PartialSkeletonsOffset)])
    else NoPartials
  }

  /** An actor whose draw object is null (one not drawn yet) makes the
      middle generation's list fault, where the guarded test lists nothing. */
  lemma UndrawnActorFaults()
    ensures var mem: Memory := map[(0x1000, ActorDrawObjectOffset) := Null];
            && FromActorAddress(mem, 0x1000) == Null
            && ListingAsWritten(mem, FromActorAddress(mem, 0x1000)) == Fault
            && ActorListing(mem, FromActorAddress(mem, 0x1000)) == NoPartials
  {
  }
}
