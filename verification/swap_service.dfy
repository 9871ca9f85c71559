/** The swap engine: creating a swap request behind an ordered chain of guards, the
    owner's response, settlement of an accepted swap, and the per-user swap lists. */
module SwapService {
  import opened Wrappers
  import opened UserModel
  import opened ItemModel
  import opened SwapModel
  import opened StoreState
  import opened Ledger

  /** The body of a swap request. `kind` is the raw `type` string; `offered` and
      `pointsOffered` are whatever the caller sent, whichever the type. */
  datatype SwapRequest = SwapRequest(
    requester: UserId,
    item: ItemId,
    offered: Option<ItemId>,
    pointsOffered: Option<int>,
    kind: string,
    message: Option<string>)

  /** The target of a request exists, is available and is approved. */
  predicate Requestable(st: Store, id: ItemId) {
    id in st.items && st.items[id].status == Available && st.items[id].approved
  }

  /** An offered item exists, belongs to the requester and is available. Its approval
      flag is not looked at. */
  predicate OfferAcceptable(st: Store, id: ItemId, requester: UserId) {
    id in st.items && st.items[id].uploader == requester && st.items[id].status == Available
  }

  /** The requester is a registered user holding at least `points`. */
  predicate CanAfford(st: Store, requester: UserId, points: int) {
    requester in st.users && st.users[requester].points >= points
  }

  /** The swap document `createSwap` builds: the offered item kept only for a direct
      swap, the points only for a points swap. None when the type is neither, which
      the schema's enum cast refuses. */
  function Draft(req: SwapRequest, owner: UserId): (r: Option<Swap>)
    ensures r.Some? <==> req.kind == "direct" || req.kind == "points"
    ensures r.Some? ==> r.value.requester == req.requester && r.value.owner == owner && r.value.item == req.item
    ensures r.Some? ==> r.value.status == SwapStatus.Pending && r.value.message == req.message
    ensures r.Some? ==> r.value.offered == (if req.kind == "direct" then req.offered else None)
    ensures r.Some? ==> r.value.pointsOffered == (if req.kind == "points" then req.pointsOffered else None)
  {
    match ParseSwapType(req.kind)
    case None => None
    case Some(kind) =>
      Some(Swap(req.requester, owner, req.item,
                if kind == Direct then req.offered else None,
                if kind == Points then req.pointsOffered else None,
                kind, SwapStatus.Pending, req.message))
  }

  /** `createSwap`. The guards run in this order and the first that fails decides the
      response: the target must be requestable; it must not be the requester's own; a
      direct request naming an offered item needs an acceptable offer; a points request
      offering a truthy amount needs a requester who can afford it; and the document
      must pass the swap schema. A failure changes nothing. On success the new swap is
      pending and the target item becomes pending; no balance moves. */
  function CreateSwap(st: Store, req: SwapRequest): (r: Transition<(SwapId, Swap)>)
    ensures r.result.Failure? ==> r.store == st
    ensures r.result.Success? ==>
      var id := r.result.value.0;
      var s := r.result.value.1;
      && Requestable(st, req.item)
      && req.requester != st.items[req.item].uploader
      && id == st.nextId
      && s.status == SwapStatus.Pending && s.requester == req.requester && s.item == req.item
      && s.owner == st.items[req.item].uploader
      && (s.kind == Direct <==> req.kind == "direct")
      && (s.kind == Points <==> req.kind == "points")
      && (s.kind == Direct ==> s.offered == req.offered && s.pointsOffered.None?
                               && s.offered.Some? && OfferAcceptable(st, s.offered.value, req.requester))
      && (s.kind == Points ==> s.pointsOffered == req.pointsOffered && s.offered.None?
                               && s.pointsOffered.Some? && s.pointsOffered.value >= MinPointsOffered
                               && CanAfford(st, req.requester, s.pointsOffered.value))
      && s.message == req.message
      && SwapModel.SchemaValid(s)
      && r.store.users == st.users
      && StatusesSet(st.items, r.store.items, {req.item}, ItemStatus.Pending)
      && r.store.swaps == st.swaps[id := s]
      && r.store.nextId == id + 1
  {
    if !Requestable(st, req.item) then Transition(st, Failure(ItemNotAvailable))
    else
      var target := st.items[req.item];
      if target.uploader == req.requester then Transition(st, Failure(OwnItem))
      else if req.kind == "direct" && req.offered.Some?
              && !OfferAcceptable(st, req.offered.value, req.requester) then
        Transition(st, Failure(InvalidOfferedItem))
      else if req.kind == "points" && Offers(req.pointsOffered)
              && !CanAfford(st, req.requester, req.pointsOffered.value) then
        Transition(st, Failure(InsufficientPoints))
      else match Draft(req, target.uploader)
        case None => Transition(st, Failure(SwapNotSaved))
        case Some(s) =>
          if !SwapModel.SchemaValid(s) then Transition(st, Failure(SwapNotSaved))
          else
            var id := st.nextId;
            Transition(st.(items := SetStatus(st.items, req.item, ItemStatus.Pending),
                           swaps := st.swaps[id := s],
                           nextId := id + 1),
                       Success((id, s)))
  }

  /** A missing, unavailable or unapproved target is refused first, whatever else the
      request says. */
  lemma CreateSwapRefusesUnavailable(st: Store, req: SwapRequest)
    requires !Requestable(st, req.item)
    ensures CreateSwap(st, req) == Transition(st, Failure(ItemNotAvailable))
  {
  }

  /** Requesting one's own item is refused, but only once the target is requestable. */
  lemma CreateSwapRefusesOwnItem(st: Store, req: SwapRequest)
    requires Requestable(st, req.item)
    ensures CreateSwap(st, req).result == Failure(OwnItem) <==> st.items[req.item].uploader == req.requester
  {
  }

  /** With a requestable target of someone else, a direct request naming an offered item
      is refused as an invalid offer exactly when that item is missing, not the
      requester's, or not available. */
  lemma CreateSwapChecksOffer(st: Store, req: SwapRequest)
    requires Requestable(st, req.item) && st.items[req.item].uploader != req.requester
    requires req.kind == "direct" && req.offered.Some?
    ensures CreateSwap(st, req).result == Failure(InvalidOfferedItem)
        <==> !OfferAcceptable(st, req.offered.value, req.requester)
  {
  }

  /** The offered item's approval flag does not influence the response. */
  lemma CreateSwapIgnoresOfferApproval(st: Store, req: SwapRequest, approved: bool)
    requires req.offered.Some? && req.offered.value in st.items && req.offered.value != req.item
    ensures var o := req.offered.value;
      var st' := st.(items := st.items[o := st.items[o].(approved := approved)]);
      CreateSwap(st', req).result == CreateSwap(st, req).result
  {
  }

  /** With a requestable target of someone else, a points request offering a truthy
      amount is refused for insufficient points exactly when the requester is unknown
      or holds fewer points than offered; holding exactly the offer is enough. */
  lemma CreateSwapChecksBalance(st: Store, req: SwapRequest)
    requires Requestable(st, req.item) && st.items[req.item].uploader != req.requester
    requires req.kind == "points" && Offers(req.pointsOffered)
    ensures CreateSwap(st, req).result == Failure(InsufficientPoints)
        <==> (req.requester !in st.users || st.users[req.requester].points < req.pointsOffered.value)
  {
  }

  /** A direct request without an offered item, or a points request without a truthy
      amount, passes the guards but cannot be saved. */
  lemma CreateSwapNeedsOffer(st: Store, req: SwapRequest)
    requires Requestable(st, req.item) && st.items[req.item].uploader != req.requester
    requires (req.kind == "direct" && req.offered.None?) || (req.kind == "points" && !Offers(req.pointsOffered))
    ensures CreateSwap(st, req) == Transition(st, Failure(SwapNotSaved))
  {
  }

  /** For a direct or a points request that passes every other guard, a message over
      500 characters cannot be saved; one of exactly 500 can. */
  lemma CreateSwapMessageBound(st: Store, req: SwapRequest)
    requires Requestable(st, req.item) && st.items[req.item].uploader != req.requester
    requires || (req.kind == "direct" && req.offered.Some? && OfferAcceptable(st, req.offered.value, req.requester))
             || (req.kind == "points" && req.pointsOffered.Some? && req.pointsOffered.value >= MinPointsOffered
                 && CanAfford(st, req.requester, req.pointsOffered.value))
    requires req.message.Some?
    ensures CreateSwap(st, req).result.Success? <==> |req.message.value| <= MaxMessageLength
  {
  }

  /** The guards are all there is: a requestable target of someone else, with an
      acceptable offered item for a direct swap or an affordable amount of at least one
      point for a points swap, and a message within 500 characters, is accepted. */
  lemma CreateSwapSucceeds(st: Store, req: SwapRequest)
    requires Requestable(st, req.item) && st.items[req.item].uploader != req.requester
    requires || (req.kind == "direct" && req.offered.Some? && OfferAcceptable(st, req.offered.value, req.requester))
             || (req.kind == "points" && req.pointsOffered.Some? && req.pointsOffered.value >= MinPointsOffered
                 && CanAfford(st, req.requester, req.pointsOffered.value))
    requires req.message.None? || |req.message.value| <= MaxMessageLength
    ensures CreateSwap(st, req).result.Success?
  {
  }

  /** Once a request on an item succeeds, the item is pending and every further
      request on it is refused as unavailable. */
  lemma NoSecondRequest(st: Store, req: SwapRequest, next: SwapRequest)
    requires CreateSwap(st, req).result.Success?
    requires next.item == req.item
    ensures var st' := CreateSwap(st, req).store;
      CreateSwap(st', next) == Transition(st', Failure(ItemNotAvailable))
  {
    var st' := CreateSwap(st, req).store;
    assert st'.items[req.item].status == ItemStatus.Pending;
  }

  /** A successful request keeps the store consistent: the saved swap passes its
      schema, names existing items and has a requester other than its owner. */
  lemma CreateSwapKeepsValid(st: Store, req: SwapRequest)
    requires st.Valid()
    ensures CreateSwap(st, req).store.Valid()
  {
    var r := CreateSwap(st, req);
    if r.result.Success? {
      var s := r.result.value.1;
      var saved := st.(swaps := st.swaps[st.nextId := s], nextId := st.nextId + 1);
      ValidAfterInsert(st, s);
      assert r.store == saved.(items := r.store.items);
      ValidAfterStatuses(saved, r.store.items, {req.item}, ItemStatus.Pending);
    }
  }

  /* -------------------------------------------------------------- responses */

  datatype Decision = Accept | Reject

  /** `processAcceptedSwap`: a direct swap with an offered item marks both items
      swapped; a points swap with a truthy amount moves the points from requester to
      owner, without re-checking the requester's balance, and marks the target
      swapped; the swap then ends completed. */
  function ProcessAcceptedSwap(st: Store, id: SwapId): (r: Store)
    requires id in st.swaps
    ensures r.swaps == st.swaps[id := st.swaps[id].(status := Completed)]
    ensures r.nextId == st.nextId
    ensures var s := st.swaps[id];
      if s.kind == Direct && s.offered.Some? then
        && r.users == st.users
        && StatusesSet(st.items, r.items, {s.item, s.offered.value}, Swapped)
      else if s.kind == Points && Offers(s.pointsOffered) then
        && r.users == AddPoints(AddPoints(st.users, s.requester, -s.pointsOffered.value), s.owner, s.pointsOffered.value)
        && StatusesSet(st.items, r.items, {s.item}, Swapped)
      else
        r.users == st.users && r.items == st.items
  {
    var s := st.swaps[id];
    var settled :=
      if s.kind == Direct && s.offered.Some? then
        st.(items := SetStatus(SetStatus(st.items, s.item, Swapped), s.offered.value, Swapped))
      else if s.kind == Points && Offers(s.pointsOffered) then
        var p := s.pointsOffered.value;
        st.(users := AddPoints(AddPoints(st.users, s.requester, -p), s.owner, p),
            items := SetStatus(st.items, s.item, Swapped))
      else st;
    settled.(swaps := settled.swaps[id := s.(status := Completed)])
  }

  /** `respondToSwap`. Only the swap's owner may respond, and only while it is pending;
      a refused response changes nothing. Rejecting ends the swap rejected and returns
      the target to `available`; accepting records `accepted` and then settles, ending
      the swap completed. */
  function RespondToSwap(st: Store, id: SwapId, caller: UserId, d: Decision): (r: Transition<Swap>)
    ensures r.result.Failure? ==> r.store == st
    ensures id !in st.swaps || st.swaps[id].owner != caller ==> r.result == Failure(SwapNotFoundOrUnauthorized)
    ensures id in st.swaps && st.swaps[id].owner == caller && st.swaps[id].status != SwapStatus.Pending
      ==> r.result == Failure(SwapNotPending)
    ensures r.result.Success? <==> id in st.swaps && st.swaps[id].owner == caller && st.swaps[id].status == SwapStatus.Pending
    ensures r.result.Success? ==>
      var s := st.swaps[id];
      && r.result.value == s.(status := if d == Accept then Completed else Rejected)
      && r.store.swaps == st.swaps[id := r.result.value]
      && r.store.nextId == st.nextId
    ensures r.result.Success? && d == Reject ==>
      && r.store.users == st.users
      && StatusesSet(st.items, r.store.items, {st.swaps[id].item}, Available)
  {
    if id !in st.swaps || st.swaps[id].owner != caller then
      Transition(st, Failure(SwapNotFoundOrUnauthorized))
    else if st.swaps[id].status != SwapStatus.Pending then
      Transition(st, Failure(SwapNotPending))
    else
      var s := st.swaps[id];
      match d
      case Reject =>
        var rejected := s.(status := Rejected);
        Transition(st.(swaps := st.swaps[id := rejected],
                       items := SetStatus(st.items, s.item, Available)),
                   Success(rejected))
      case Accept =>
        var accepted := st.(swaps := st.swaps[id := s.(status := Accepted)]);
        var settled := ProcessAcceptedSwap(accepted, id);
        Transition(settled, Success(settled.swaps[id]))
  }

  /** Every response keeps the store consistent. */
  lemma RespondKeepsValid(st: Store, id: SwapId, caller: UserId, d: Decision)
    requires st.Valid()
    ensures RespondToSwap(st, id, caller, d).store.Valid()
  {
    var r := RespondToSwap(st, id, caller, d);
    if r.result.Success? {
      var s := st.swaps[id];
      var marked := st.(swaps := st.swaps[id := r.result.value]);
      ValidAfterSwapStatus(st, id, r.result.value.status);
      var ids := if d == Reject || !(s.kind == Direct && s.offered.Some?) then {s.item} else {s.item, s.offered.value};
      var status := if d == Reject then Available else Swapped;
      if d == Accept && !(s.kind == Direct && s.offered.Some?) && !(s.kind == Points && Offers(s.pointsOffered)) {
        assert r.store == marked;
      } else {
        assert StatusesSet(marked.items, r.store.items, ids, status);
        assert r.store == marked.(items := r.store.items, users := r.store.users);
        ValidAfterStatuses(marked, r.store.items, ids, status);
      }
    }
  }

  /** Accepting a direct swap marks exactly the target and the offered item swapped and
      moves no points. */
  lemma AcceptDirectSwapsBoth(st: Store, id: SwapId, caller: UserId)
    requires st.Valid()
    requires id in st.swaps && st.swaps[id].owner == caller && st.swaps[id].status == SwapStatus.Pending
    requires st.swaps[id].kind == Direct
    ensures var s := st.swaps[id];
      var r := RespondToSwap(st, id, caller, Accept);
      && r.result == Success(s.(status := Completed))
      && r.store.users == st.users
      && r.store.items[s.item].status == Swapped
      && r.store.items[s.offered.value].status == Swapped
      && StatusesSet(st.items, r.store.items, {s.item, s.offered.value}, Swapped)
  {
    SchemaValidOffers(st.swaps[id]);
  }

  /** Accepting a points swap debits the requester and credits the owner by the offer,
      leaves every other balance alone, conserves the total, and marks the target
      swapped. */
  lemma AcceptPointsTransfers(st: Store, id: SwapId, caller: UserId)
    requires st.Valid()
    requires id in st.swaps && st.swaps[id].owner == caller && st.swaps[id].status == SwapStatus.Pending
    requires st.swaps[id].kind == Points
    requires st.swaps[id].requester in st.users && st.swaps[id].owner in st.users
    ensures var s := st.swaps[id];
      var p := s.pointsOffered.value;
      var r := RespondToSwap(st, id, caller, Accept);
      && r.result == Success(s.(status := Completed))
      && r.store.users.Keys == st.users.Keys
      && r.store.users[s.requester].points == st.users[s.requester].points - p
      && r.store.users[s.owner].points == st.users[s.owner].points + p
      && (forall u | u in st.users && u != s.requester && u != s.owner :: r.store.users[u] == st.users[u])
      && Total(r.store.users) == Total(st.users)
      && StatusesSet(st.items, r.store.items, {s.item}, Swapped)
  {
    var s := st.swaps[id];
    SchemaValidOffers(s);
    var accepted := st.(swaps := st.swaps[id := s.(status := Accepted)]);
    assert accepted.swaps[id].pointsOffered == s.pointsOffered;
    TransferConserves(st.users, s.requester, s.owner, s.pointsOffered.value);
  }

  /** Rejecting returns the target to `available` and touches neither the offered item
      nor any balance. */
  lemma RejectRestoresTarget(st: Store, id: SwapId, caller: UserId)
    requires id in st.swaps && st.swaps[id].owner == caller && st.swaps[id].status == SwapStatus.Pending
    requires st.swaps[id].item in st.items
    ensures var s := st.swaps[id];
      var r := RespondToSwap(st, id, caller, Reject);
      && r.result == Success(s.(status := Rejected))
      && r.store.items[s.item].status == Available
      && (s.offered.Some? && s.offered.value != s.item && s.offered.value in st.items
          ==> r.store.items[s.offered.value] == st.items[s.offered.value])
      && r.store.users == st.users
  {
  }

  /** A swap is answered at most once: after a successful response every further
      response, by anyone and either way, is refused and changes nothing. */
  lemma NoSecondResponse(st: Store, id: SwapId, caller: UserId, d: Decision, caller2: UserId, d2: Decision)
    requires RespondToSwap(st, id, caller, d).result.Success?
    ensures var st' := RespondToSwap(st, id, caller, d).store;
      var again := RespondToSwap(st', id, caller2, d2);
      again.result.Failure? && again.store == st'
  {
  }

  /* ---------------------------------------------------------------- queries */

  /** `getUserSwaps`: the swaps the user sent and those the user received, newest first. */
  function GetUserSwaps(st: Store, user: UserId): (r: (seq<SwapId>, seq<SwapId>))
    ensures forall id | id in r.0 :: id in st.swaps && st.swaps[id].requester == user
    ensures forall id | id in r.1 :: id in st.swaps && st.swaps[id].owner == user
    ensures st.Valid() ==> forall id | id in st.swaps && st.swaps[id].requester == user :: id in r.0
    ensures st.Valid() ==> forall id | id in st.swaps && st.swaps[id].owner == user :: id in r.1
    ensures forall i, j | 0 <= i < j < |r.0| :: r.0[i] > r.0[j]
    ensures forall i, j | 0 <= i < j < |r.1| :: r.1[i] > r.1[j]
  {
    (NewestFirst(st.swaps, (s: Swap) => s.requester == user, st.nextId),
     NewestFirst(st.swaps, (s: Swap) => s.owner == user, st.nextId))
  }

  /** In a consistent store nobody both sent and received the same swap. */
  lemma SentAndReceivedDisjoint(st: Store, user: UserId)
    requires st.Valid()
    ensures var r := GetUserSwaps(st, user);
      forall id | id in r.0 :: id !in r.1
  {
  }
}
