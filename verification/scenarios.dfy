/** Whole workflows run through the services, from listing to settlement, and the
    consequences of guards the code checks at request time only. */
module Scenarios {
  import opened Wrappers
  import opened JsText
  import opened UserModel
  import opened ItemModel
  import opened SwapModel
  import opened StoreState
  import opened ItemService
  import opened SwapService

  const Moderator: UserId := 0
  const Lister: UserId := 1
  const Buyer: UserId := 2

  /** Two fresh members and an admin, nothing listed yet. */
  function Community(): (st: Store)
    ensures st.Valid() && st.nextId == 3
    ensures st.users.Keys == {Moderator, Lister, Buyer}
    ensures st.users[Moderator].role == Admin
    ensures st.users[Lister] == NewUser() && st.users[Buyer] == NewUser()
  {
    Store(map[Moderator := User(StartingPoints, Admin), Lister := NewUser(), Buyer := NewUser()],
          map[], map[], 3)
  }

  function Coat(): ItemData {
    ItemData(" Coat ", "Barely worn", "clothing", "good", "coat", "M", [], [])
  }

  function BuyerOffer(): SwapRequest {
    SwapRequest(Buyer, 3, None, Some(20), "points", None)
  }

  /* The stages of the walk-through. */
  function ListedCoat(): Transition<ItemId> { CreateItem(Community(), Coat(), Lister) }
  function Approved(): Transition<Item> { ApproveItem(ListedCoat().store, 3, Moderator) }
  function Requested(): Transition<(SwapId, Swap)> { CreateSwap(Approved().store, BuyerOffer()) }
  function Settled(): Transition<Swap> { RespondToSwap(Requested().store, 4, Lister, Accept) }

  /** The coat's untrimmed title is accepted and stored trimmed. */
  lemma {:induction false} CoatTitle()
    ensures !Blank(Coat().title)
    ensures Trim(Coat().title) == "Coat"
  {
    var t := Coat().title;
    assert !IsWhitespace(t[1]);
    assert t[1..] == "Coat ";
    assert TrimStart(t) == "Coat " by {
      assert TrimStart("Coat ") == "Coat ";
    }
    assert "Coat "[..4] == "Coat";
    assert TrimEnd("Coat ") == TrimEnd("Coat");
    assert TrimEnd("Coat") == "Coat";
  }

  /** A lists a coat in good condition: it becomes item 3, priced at 20 points,
      available and awaiting approval. */
  lemma ListingStage()
    ensures ListedCoat().result == Success(3)
    ensures ListedCoat().store.Valid() && ListedCoat().store.users == Community().users
    ensures 3 in ListedCoat().store.items
    ensures ListedCoat().store.items[3].pointValue == 20
    ensures ListedCoat().store.items[3].uploader == Lister
    ensures ListedCoat().store.items[3].title == "Coat"
    ensures ListedCoat().store.items[3].status == Available && !ListedCoat().store.items[3].approved
  {
    CoatTitle();
    assert SaveAccepts(Coat());
    PointValueExamples();
    CreateItemKeepsValid(Community(), Coat(), Lister);
  }

  /** The admin approves it; nothing else changes. */
  lemma ApprovalStage()
    ensures Approved().result.Success?
    ensures Approved().store.Valid() && Approved().store.users == Community().users
    ensures Approved().store.nextId == 4
    ensures Requestable(Approved().store, 3)
    ensures Approved().store.items[3].uploader == Lister
  {
    ListingStage();
  }

  /** B offers 20 points for it: swap 4 is pending and the coat is no longer available. */
  lemma RequestStage()
    ensures Requested().result.Success? && Requested().result.value.0 == 4
    ensures Requested().store.Valid() && Requested().store.users == Community().users
    ensures 4 in Requested().store.swaps && 3 in Requested().store.items
    ensures var s := Requested().store.swaps[4];
      s.kind == Points && s.owner == Lister && s.requester == Buyer && s.pointsOffered == Some(20)
      && s.status == SwapStatus.Pending
    ensures Requested().store.items[3].status == ItemStatus.Pending
  {
    ApprovalStage();
    var st := Approved().store;
    var req := BuyerOffer();
    assert CanAfford(st, Buyer, 20);
    CreateSwapSucceeds(st, req);
    CreateSwapKeepsValid(st, req);
  }

  /** A accepts: B ends with 80 points, A with 120, the coat is swapped and the swap
      completed. */
  lemma {:induction false} PointsSwapEndToEnd()
    ensures Buyer in Settled().store.users && Lister in Settled().store.users && 3 in Settled().store.items
    ensures Settled().result.Success? && Settled().result.value.status == Completed
    ensures Settled().store.users[Buyer].points == 80
    ensures Settled().store.users[Lister].points == 120
    ensures Settled().store.items[3].status == Swapped
  {
    RequestStage();
    AcceptPointsTransfers(Requested().store, 4, Lister);
  }

  /* ------------------------------------------------- request-time-only guards */

  /** Balances are checked when a points request is made and not when it is settled, and
      a pending offer reserves nothing: when one owner accepts two pending points offers
      from the same requester, the requester pays both in full, and ends with a negative
      balance whenever the two offers together exceed what they held. */
  lemma {:induction false} SettlementCanOverdraw(st: Store, id1: SwapId, id2: SwapId, owner: UserId)
    requires st.Valid() && id1 != id2
    requires id1 in st.swaps && id2 in st.swaps
    requires st.swaps[id1].owner == owner && st.swaps[id2].owner == owner
    requires st.swaps[id1].status == SwapStatus.Pending && st.swaps[id2].status == SwapStatus.Pending
    requires st.swaps[id1].kind == Points && st.swaps[id2].kind == Points
    requires st.swaps[id1].requester == st.swaps[id2].requester
    requires st.swaps[id1].requester in st.users && owner in st.users
    ensures var u := st.swaps[id1].requester;
      var p := st.swaps[id1].pointsOffered.value + st.swaps[id2].pointsOffered.value;
      var first := RespondToSwap(st, id1, owner, Accept);
      var second := RespondToSwap(first.store, id2, owner, Accept);
      && first.result.Success? && second.result.Success?
      && u in second.store.users
      && second.store.users[u].points == st.users[u].points - p
      && (p > st.users[u].points ==> second.store.users[u].points < 0)
  {
    var u := st.swaps[id1].requester;
    var first := RespondToSwap(st, id1, owner, Accept);
    AcceptPointsTransfers(st, id1, owner);
    RespondKeepsValid(st, id1, owner, Accept);
    assert first.store.swaps[id2] == st.swaps[id2];
    assert u in first.store.users && owner in first.store.users;
    assert first.store.users[u].points == st.users[u].points - st.swaps[id1].pointsOffered.value;
    AcceptPointsTransfers(first.store, id2, owner);
  }

  /** A pending request keeps its target in the swap flow even after an admin removes
      the listing: rejecting the request afterwards returns the removed item to
      `available`. */
  lemma {:induction false} RejectRevivesRemovedItem(st: Store, id: SwapId, admin: UserId)
    requires st.Valid() && IsAdmin(st, admin)
    requires id in st.swaps && st.swaps[id].status == SwapStatus.Pending
    ensures var s := st.swaps[id];
      var removed := RejectItem(st, s.item, admin).store;
      var answered := RespondToSwap(removed, id, s.owner, Reject);
      && removed.items[s.item].status == Removed
      && answered.result.Success?
      && answered.store.items[s.item].status == Available
  {
    var s := st.swaps[id];
    var removed := RejectItem(st, s.item, admin).store;
    assert removed.swaps == st.swaps;
    RejectRestoresTarget(removed, id, s.owner);
  }
}
