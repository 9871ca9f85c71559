/** The three collections the services read and write, held as maps from document id
    to record. Ids come from one creation counter, so a larger id is a newer document;
    this stands for both ObjectId freshness and the `createdAt` timestamp. */
module StoreState {
  import opened Wrappers
  import opened UserModel
  import opened ItemModel
  import opened SwapModel

  datatype Store = Store(
    users: map<UserId, User>,
    items: map<ItemId, Item>,
    swaps: map<SwapId, Swap>,
    nextId: nat)
  {
    /** The invariant the services keep: ids are below the counter, every saved
        document passes its schema, a swap's requester is not its owner, and the
        items a swap names exist. */
    predicate Valid() {
      && (forall id | id in items :: id < nextId && ItemModel.SchemaValid(items[id]))
      && (forall id | id in swaps :: id < nextId && SwapModel.SchemaValid(swaps[id]))
      && (forall id | id in swaps :: swaps[id].requester != swaps[id].owner)
      && (forall id | id in swaps :: swaps[id].item in items)
      && (forall id | id in swaps :: swaps[id].offered.Some? ==> swaps[id].offered.value in items)
    }
  }

  /** The failure responses of the services, one per distinct error the source returns. */
  datatype ServiceError =
    | ItemNotAvailable
    | OwnItem
    | InvalidOfferedItem
    | InsufficientPoints
    | SwapNotSaved
    | SwapNotFoundOrUnauthorized
    | SwapNotPending
    | Unauthorized
    | ItemNotFound
    | ItemNotSaved
    | ItemsNotFetched

  /** The `error` text the source puts in the response envelope. */
  function ErrorText(e: ServiceError): string {
    match e
    case ItemNotAvailable => "Item is not available for swap"
    case OwnItem => "Cannot swap your own item"
    case InvalidOfferedItem => "Invalid offered item"
    case InsufficientPoints => "Insufficient points"
    case SwapNotSaved => "Failed to create swap request"
    case SwapNotFoundOrUnauthorized => "Swap not found or unauthorized"
    case SwapNotPending => "Swap is no longer pending"
    case Unauthorized => "Unauthorized"
    case ItemNotFound => "Item not found"
    case ItemNotSaved => "Failed to create item"
    case ItemsNotFetched => "Failed to fetch items"
  }

  /** Each failure has its own text, so a response names the error that caused it. */
  lemma ErrorTextsDistinct(a: ServiceError, b: ServiceError)
    requires a != b
    ensures ErrorText(a) != ErrorText(b)
  {
  }

  /** The state after a service call together with its response. */
  datatype Transition<T> = Transition(store: Store, result: Result<T, ServiceError>)

  /** `findByIdAndUpdate(id, { status })`: a missing id updates nothing. */
  function SetStatus(items: map<ItemId, Item>, id: ItemId, status: ItemStatus): (r: map<ItemId, Item>)
    ensures r.Keys == items.Keys
    ensures id in items ==> r[id] == items[id].(status := status)
    ensures forall k | k in items && k != id :: r[k] == items[k]
  {
    if id in items then items[id := items[id].(status := status)] else items
  }

  /** `after` is `before` with exactly the items in `ids` set to `status`. */
  predicate StatusesSet(before: map<ItemId, Item>, after: map<ItemId, Item>, ids: set<ItemId>, status: ItemStatus) {
    && after.Keys == before.Keys
    && forall k | k in before :: after[k] == if k in ids then before[k].(status := status) else before[k]
  }

  /** A status change never breaks an item's schema. */
  lemma StatusesSetKeepsSchema(before: map<ItemId, Item>, after: map<ItemId, Item>, ids: set<ItemId>, status: ItemStatus)
    requires StatusesSet(before, after, ids, status)
    requires forall k | k in before :: ItemModel.SchemaValid(before[k])
    ensures forall k | k in after :: ItemModel.SchemaValid(after[k])
  {
    forall k | k in after ensures ItemModel.SchemaValid(after[k]) {
      assert ItemModel.SchemaValid(before[k]);
    }
  }

  /** Changing item statuses keeps a store consistent. */
  lemma ValidAfterStatuses(st: Store, items: map<ItemId, Item>, ids: set<ItemId>, status: ItemStatus)
    requires st.Valid() && StatusesSet(st.items, items, ids, status)
    ensures st.(items := items).Valid()
  {
    StatusesSetKeepsSchema(st.items, items, ids, status);
  }

  /** Saving a new swap under the next id keeps a store consistent when the swap passes
      its schema, names existing items and has a requester other than its owner. */
  lemma ValidAfterInsert(st: Store, s: Swap)
    requires st.Valid() && SwapModel.SchemaValid(s)
    requires s.requester != s.owner && s.item in st.items
    requires s.offered.Some? ==> s.offered.value in st.items
    ensures st.(swaps := st.swaps[st.nextId := s], nextId := st.nextId + 1).Valid()
  {
  }

  /** Changing a swap's status keeps a store consistent. */
  lemma ValidAfterSwapStatus(st: Store, id: SwapId, status: SwapStatus)
    requires st.Valid() && id in st.swaps
    ensures st.(swaps := st.swaps[id := st.swaps[id].(status := status)]).Valid()
  {
  }

  /** The keys below `bound` whose values satisfy `keep`, newest (largest) first:
      a `find(query).sort({ createdAt: -1 })` over one collection. */
  function NewestFirst<V>(m: map<nat, V>, keep: V -> bool, bound: nat): (r: seq<nat>)
    ensures forall i | 0 <= i < |r| :: r[i] < bound && r[i] in m && keep(m[r[i]])
    ensures forall k | k in m && k < bound && keep(m[k]) :: k in r
    ensures forall i, j | 0 <= i < j < |r| :: r[i] > r[j]
  {
    if bound == 0 then []
    else
      var rest := NewestFirst(m, keep, bound - 1);
      if bound - 1 in m && keep(m[bound - 1]) then [bound - 1] + rest else rest
  }
}
