/** The swap schema: its enumerations, its bounds and the pre-save rule that ties the
    swap type to what is offered. */
module SwapModel {
  import opened Wrappers
  import opened UserModel
  import opened ItemModel

  type SwapId = nat

  datatype SwapType = Direct | Points
  datatype SwapStatus = Pending | Accepted | Rejected | Completed

  const MaxMessageLength: nat := 500
  const MinPointsOffered: int := 1

  /** A stored swap request. `item` is the requested item, `owner` its uploader. */
  datatype Swap = Swap(
    requester: UserId,
    owner: UserId,
    item: ItemId,
    offered: Option<ItemId>,
    pointsOffered: Option<int>,
    kind: SwapType,
    status: SwapStatus,
    message: Option<string>)

  /** The schema's enum cast of the `type` field. */
  function ParseSwapType(s: string): (r: Option<SwapType>)
    ensures r == Some(Direct) <==> s == "direct"
    ensures r == Some(Points) <==> s == "points"
  {
    if s == "direct" then Some(Direct) else if s == "points" then Some(Points) else None
  }

  /** JavaScript truthiness of an optional number: absent and 0 are falsy. */
  predicate Offers(points: Option<int>) {
    points.Some? && points.value != 0
  }

  /** The pre-save hook: a direct swap names an offered item, a points swap offers a
      truthy number of points. */
  function PreSave(s: Swap): (r: Outcome<string>)
    ensures r.Pass? ==> (s.kind == Direct ==> s.offered.Some?)
    ensures r.Pass? ==> (s.kind == Points ==> s.pointsOffered.Some? && s.pointsOffered.value != 0)
    ensures r.Fail? ==> (s.kind == Direct && s.offered.None?) || (s.kind == Points && !Offers(s.pointsOffered))
    ensures r.Fail? ==> r.error == if s.kind == Direct then "Direct swap requires an offered item"
                                   else "Points swap requires points offered"
  {
    if s.kind == Direct && s.offered.None? then Fail("Direct swap requires an offered item")
    else if s.kind == Points && !Offers(s.pointsOffered) then Fail("Points swap requires points offered")
    else Pass
  }

  /** Everything the save of a swap checks: the `min` on points, the `maxlength` on the
      message and the pre-save hook. */
  predicate SchemaValid(s: Swap) {
    && (s.pointsOffered.Some? ==> s.pointsOffered.value >= MinPointsOffered)
    && (s.message.Some? ==> |s.message.value| <= MaxMessageLength)
    && PreSave(s).Pass?
  }

  /** Every swap the schema accepts carries what its type needs, and any points
      offered are at least one. */
  lemma SchemaValidOffers(s: Swap)
    requires SchemaValid(s)
    ensures s.kind == Direct ==> s.offered.Some?
    ensures s.kind == Points ==> s.pointsOffered.Some? && s.pointsOffered.value >= MinPointsOffered
  {
  }
}
